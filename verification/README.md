# Multicast proxy: a verified model

The repository replaces multicast by unicast fan-out. A server host keeps a table from
group address to member addresses; every packet sent to a group is copied, readdressed
and sent once for each member. A client host keeps a table from (server address, port)
to group, and gives an arriving packet its group address back. Server and client exist
as kernel modules with administration tools, and the server also as a userland proxy.
This project models those pieces in Dafny and proves that their many representations of
the same groups stay in agreement, and that packets survive the journey.

Run `dafny verify dfyconfig.toml` in this directory to check everything.

## How the model is laid out

| file | part of the system |
|---|---|
| Base, Members, GroupModel | addresses; member lists as values; what nodes, indices, rows and counters denote together |
| Buckets | the packed, bucketed hash table that all three programs carry |
| IndexPool, MemberRows, GroupTable | the index bitmap, the member array, and the server's group table on top of them |
| ServerSpec, Replicas | the directory of groups, the kernel's answers to its commands, and exactly when the two agree |
| ServerConfig, ServerRuns, ServerAdmin | the running configuration file, the whole server as a value, and the command that edits file and kernel |
| Dotted, CommandLine, Recovery | dotted addresses, the address-list parser, and printing and replaying saved groups |
| Userland | the userland proxy's sizes and hash, loading and reloading its configuration |
| ClientTable, ClientConfig, ClientAdmin | the client's table and file, and the command with its rollback |
| ClientRace, ClientOrder, ClientCalls | threads adding, deleting and clearing at once; what they leave; whole calls, and a run that reaches the bound |
| OnesComplement, InternetChecksum, Datagram, Proxy | checksums over bytes and the proxy's in-place fan-out loop |
| PacketRewrite, ServerHook, ClientHook | incremental checksum updates and the two kernel hooks |
| WireFormat | one packet as bytes and as fields, and that both mean the same checksums |

State that the source updates in place is a class or an array here, and each method is
proved against a function or a finite map: `Buckets.Table` denotes a map, `GroupTable.Groups`
denotes a map from address to index, members and counters, a configuration file denotes a
directory, a packet buffer denotes a byte sequence. Ghost fields (`view`, `row`, `fill`,
`groups`, `owner`, `rows`, `saved`, `dir`, `retired`) hold the denoted values, and each
class's `Valid` ties them to the real fields.

## Choices the statements rest on

- **Sizes are parameters.** In the kernel server the pool is one machine word
  (`multicast_kernel/multi_server/kmod/multis_grp.c:21`) and a node's index has 8 bits
  (`multicast_kernel/multi_server/include/grp.h:9`), while the header allows 1024 groups.
  The model takes a pool of at most 256 bits, as the userland port has it;
  `GroupTable.SmallIndices` says why 256 is the limit. The pool is the byte array of
  `multicast_linux/server_proxy/multi_grp.c:12` for both servers.
- **The row counter has 8 bits.** `Buckets.RowSearchEnds` says exactly when the search with
  it ends. The server tables meet the condition because their pool has at most 256 indices.
  A client table of the shipped sizes (512 rows, 1024 entries) meets it until a bucket holds
  256 entries; from then on an add of a new source to that bucket never returns
  (`ClientTable.Nodes.SpinsForever`), and the statements about the client say so.
- **The hash** of the kernel tables is an arbitrary function into the buckets; the userland
  one is computed.
- **Join and quit lists are distinct.** The kernel compares new addresses with the old members
  only, so a repeated address would be stored twice; the parser removes repeats
  (`CommandLine.CollectIsClean`), and `Members.JoinedIsUnion` says exactly which lists are safe.
- **What a packet meets on its way** (whether a copy can be made, a route found, a send
  succeeds) is given by a function from position to outcome.
- **Kernels after 2.6.18** send a copy through the chain the server's hook is registered on
  (`multicast_kernel/multi_server/kmod/multis_nf.c:164-168`), so it passes the hook again; earlier
  ones do not. `ServerHook.Hook.again` says which, and everything is stated for both. Where
  groups are members of groups, the statements need a bound on how deep they nest below a
  packet's destination, because without one the hook does not return.
- **Commands and packets do not overlap**, except in `ClientRace`.

## Results worth knowing

- The server's add is not undone when the kernel refuses it. `Replicas.AgreesIffRoomy` says
  exactly in which runs the two replicas stay in agreement, `ServerAdmin.PartWays` shows one
  in which they do not, and `ServerAdmin.Run` says what each holds in any case. With buckets
  at least as deep as the group limit they never part.
- Recovery rebuilds the configuration always, and the kernel table exactly when the groups fit
  its buckets.
- The command buffer of the recovery tool holds 253 members of any group, and not 254 of
  every group (`Recovery.SomeGroupsDoNotFit`).
- `del_multi_node` answers success for a missing group, and a join that is too long for a
  *new* group leaves that group created and empty. Both are in the contracts.
- The server's hook leaves a wrong IP header checksum whenever it changes TTL or TOS, and
  both hooks do on a later fragment, where they replace the destination and update nothing,
  unless the sums happen to agree (`PacketRewrite.ServerHeaderGoodIff`,
  `PacketRewrite.RedirectGoodIff`).
- Nothing keeps a group's address out of its own member list. On kernels after 2.6.18 a packet
  to such a group makes the hook call itself without end
  (`ServerHook.OwnMemberNestsForever`).
- The client's undo of a delete is never executed.
- The client's 32-bit checksum accumulator is safe up to 131074 bytes and not beyond.
- On the userland side a marked packet (TTL 128, identification 0x1000) is dropped by the
  member loop after it was counted as forwarded.

## Model

| member | source | states |
|---|---|---|
| `ServerAdmin.Run` | multicast_kernel/multi_server/tools/multi_server_control/app_control.c:98-124 | every run of commands and packets, whatever the two replicas held and whatever the kernel refused on the way, takes the server exactly where the fold of its events says: saved list, kernel table, every counter, what was sent and what was retired; in particular the saved list, its directory and the kernel's table are the folds of the commands alone, what was ever sent is counted for a live group or one that is gone, the global counter grew by exactly what was sent, agreement is kept while no command overflows, and the kernel never comes to hold more than the configuration |
| `ServerRuns.CommandsDecide` | multicast_kernel/multi_server/tools/multi_server_control/app_control.c:98-124 | the fold itself: packets change neither saved list nor table, and commands change them as the map, the list edit and the kernel's answers say |
| `ServerRuns.RunAccounted` | multicast_kernel/multi_server/kmod/multis_nf.c:170-173 | over every run the global packet count equals the live groups' counters plus those of groups deleted or cleared since |
| `ServerRuns.RunAdds` | multicast_kernel/multi_server/kmod/multis_nf.c:170-173 | and it grows by exactly the packets and bytes sent |
| `ServerRuns.RetiredGrows` | multicast_kernel/multi_server/kmod/multis_grp.c:484-487 | the retired part never shrinks, and stays as it is while no group is removed |
| `ServerRuns.SentInOrder` | multicast_kernel/multi_server/kmod/multis_nf.c:109-174 | what a run sends is the copies of each packet in turn, for the members its group had then and whose copy and route succeeded, and nothing else, unless a copy passes the hook again for a group of its own |
| `ServerRuns.RunAgrees` | multicast_kernel/multi_server/tools/multi_server_control/app_control.c:98-124 | from agreement a run without overflow ends in agreement |
| `ServerRuns.EventRunPush` | multicast_kernel/multi_server/tools/multi_server_control/app_control.c:98-124 | each event of a run takes its own step: a command edits, answers and retires, a packet changes the books and nothing else |
| `ServerRuns.CommandKeepsBooks` | multicast_kernel/multi_server/kmod/multis_grp.c:484-487 | no command changes what was sent, the drops or the global count; groups that stay keep their counters, new ones start at zero, and a removed one hands its counter to the retired part |
| `ServerRuns.RefusedChangesNothing` | multicast_kernel/multi_server/tools/multi_server_control/app_control.c:104-106 | a command that the configuration refuses changes nothing in the whole server |
| `ServerRuns.KernelJoinsNew` | multicast_kernel/multi_server/kmod/multis_grp.c:340-374 | a new group that the configuration accepted gets its list as it is, and is left out of the kernel exactly when the pool is exhausted or as many groups share its bucket as that is deep |
| `ServerRuns.KernelJoinsKnown` | multicast_kernel/multi_server/kmod/multis_grp.c:325-338 | a known one keeps its members in front and gets the others of the list behind them, in order; when both are too many nothing changes |
| `ServerRuns.KernelLeaves` | multicast_kernel/multi_server/kmod/multis_grp.c:295-316 | a quit takes the difference where the kernel knows the group and does nothing where it does not; a delete drops the group, a clear all of them |
| `ServerRuns.AddedIs` | multicast_kernel/multi_server/kmod/multis_nf.c:170-173 | the growth of the global counter in numbers: one for each packet sent, and the sum of their stated lengths |
| `Replicas.AgreesIffRoomy` | multicast_kernel/multi_server/tools/multi_server_control/app_control.c:98-124 | configuration and kernel agree all along a run, before the first command and after each, if and only if no command of the run overflows a bucket |
| `Replicas.NeverRefusedIffRoomy` | multicast_kernel/multi_server/tools/multi_server_control/app_control.c:98-124 | and the kernel refuses no command of the run that the configuration accepted, if and only if the same holds |
| `Replicas.AnswerMirrors` | multicast_kernel/multi_server/tools/multi_server_control/app_control.c:98-124 | from agreement one command leads to agreement, and is a success when accepted, if and only if it does not overflow, which the map, the bucket depth and the hash tell before the call |
| `Replicas.AnswerWithin` | multicast_kernel/multi_server/tools/multi_server_control/app_control.c:98-124 | in any state, a kernel table that holds no more than the configuration still holds no more after the command |
| `Replicas.RunWithin` | multicast_kernel/multi_server/tools/multi_server_control/app_control.c:98-124 | the same over every run |
| `Replicas.MirrorsJoin` | multicast_kernel/multi_server/kmod/multis_grp.c:129-159 | appending only addresses that were not members is set union on the directory |
| `Replicas.MirrorsQuit` | multicast_kernel/multi_server/kmod/multis_grp.c:273-293 | swapping the last member into the hole is set difference on the directory |
| `Replicas.DeepIsRoomy` | multicast_kernel/multi_server/include/grp.h:18-21 | when buckets are at least as deep as the configured group limit no run of commands can overflow one |
| `ServerAdmin.MulticastServer.Exec` | multicast_kernel/multi_server/tools/multi_server_control/app_control.c:98-124 | one command in any state: the configuration makes its edit, the kernel gives its answer if the configuration accepted, success is both, the balance is kept and the counters of removed groups are retired; agreement after agreement exactly without overflow |
| `ServerAdmin.SuccessIs` | multicast_kernel/multi_server/tools/multi_server_control/app_control.c:98-124 | when a command is reported a success, in any state: the configuration took it, and the kernel had room for the new group or the members, or knew the group to quit |
| `ServerAdmin.MulticastServer.ServiceAdd` | multicast_kernel/multi_server/tools/multi_server_control/app_control.c:98-108 | configuration first, kernel second and only if the first accepted, and no undo when the kernel refuses |
| `ServerAdmin.MulticastServer.ServiceDel` | multicast_kernel/multi_server/tools/multi_server_control/app_control.c:109-119 | each replica loses exactly the group; a group missing from the configuration is reported and the kernel not asked |
| `ServerAdmin.MulticastServer.DeleteFromKernel` | multicast_kernel/multi_server/tools/multi_server_control/app_control.c:115 | the kernel loses exactly the group, and every other counter is kept |
| `ServerAdmin.MulticastServer.ServiceClear` | multicast_kernel/multi_server/tools/multi_server_control/app_control.c:120-124 | both replicas are empty afterwards and every live counter is retired |
| `ServerAdmin.MulticastServer.Deliver` | multicast_kernel/multi_server/kmod/multis_nf.c:65-177 | in any state, on kernels where a copy passes the hook again and on those where it does not, a packet changes the books exactly as a pass says, and no group, no member, no configuration and nothing retired; the balance is kept |
| `ServerAdmin.NodeAdd` | multicast_kernel/multi_server/kmod/multis_nl.c:16-46 | for any table and any list, a join or quit changes the member lists and answers exactly as specified, error cases included; every counter is kept and a new group's is zero |
| `ServerAdmin.NoRoomIsCrowded` | multicast_kernel/multi_server/kmod/multis_grp.c:342-374 | the kernel refuses a new group exactly when the pool is exhausted or as many of its groups share the bucket as it is deep |
| `ServerAdmin.HeldIsHoused` | multicast_kernel/multi_server/kmod/multis_grp.c:318-379 | no bucket of a kernel table ever holds more groups than it is deep |
| `ServerAdmin.PartWays` | multicast_kernel/multi_server/tools/multi_server_control/app_control.c:104-106 | a concrete run (one slot, two groups) after which configuration and kernel differ, because the add is not undone |
| `ServerAdmin.MulticastServer.constructor` | multicast_kernel/multi_server/scripts/multis:61-80 | an empty configuration over an empty kernel table is an agreeing, balanced start |
| `ServerAdmin.Boot` | multicast_kernel/multi_server/scripts/multis:61-80 | such a start exists for every table shape within the limits |
| `ServerSpec.EditIsStep` | multicast_kernel/multi_server/tools/multi_server_control/json_config.c:87-228 | every edit of a well-formed saved list keeps it well-formed, is accepted exactly when the map accepts the command, and denotes the map's next state |
| `ServerSpec.JoinNew` | multicast_kernel/multi_server/tools/multi_server_control/json_config.c:129-141 | on the saved list, place by place: a new group goes to the end, if the number of groups and of its members allow |
| `ServerSpec.JoinKnown` | multicast_kernel/multi_server/tools/multi_server_control/json_config.c:142-165 | a join keeps a group's place and its members in front, and appends the others of the list in their order; refused when both numbers add up to too many, even if they overlap |
| `ServerSpec.QuitKnown` | multicast_kernel/multi_server/tools/multi_server_control/json_config.c:142-172 | a quit takes out the listed members, and the others keep their order; every other group keeps its place and members |
| `ServerSpec.DeleteAndClear` | multicast_kernel/multi_server/tools/multi_server_control/json_config.c:195-256 | a delete closes the hole, a clear takes everything, and quitting or deleting an unknown group is refused |
| `ServerSpec.DenoteIs` | multicast_kernel/multi_server/tools/multi_server_control/json_config.c:87-108 | a well-formed saved list denotes exactly one map: the one that holds every listed group and no other |
| `ServerSpec.DenotePush` | multicast_kernel/multi_server/tools/multi_server_control/json_config.c:129-141 | appending a new group adds exactly it to the map |
| `ServerSpec.DenoteChange` | multicast_kernel/multi_server/tools/multi_server_control/json_config.c:142-172 | changing the members of one entry changes exactly that group of the map |
| `ServerSpec.DenoteDelete` | multicast_kernel/multi_server/tools/multi_server_control/json_config.c:195-218 | closing the hole in the list removes exactly that group from the map |
| `ServerConfig.Config.Init` | multicast_kernel/multi_server/tools/multi_server_control/json_config.c:48-70 | creates the array only when it is missing and changes no group |
| `ServerConfig.Config.AddToConfig` | multicast_kernel/multi_server/tools/multi_server_control/json_config.c:87-178 | the search by text, the limit tests, and the nested join or quit loop perform exactly the specified edit on the JSON array; without an array nothing happens and the call fails |
| `ServerConfig.Config.DelFromConfig` | multicast_kernel/multi_server/tools/multi_server_control/json_config.c:195-228 | likewise for deleting a group |
| `ServerConfig.Config.ClearConfig` | multicast_kernel/multi_server/tools/multi_server_control/json_config.c:245-256 | the array disappears, and with it every group |
| `ServerConfig.EditMembers` | multicast_kernel/multi_server/tools/multi_server_control/json_config.c:152-171 | the loop over the addresses, searching texts, is the list function on addresses: joins compare with the growing list, quits close the hole |
| `ServerConfig.DelElementFromArrayByIdx` | multicast_kernel/multi_server/tools/multi_server_control/base_config.c:47-66 | moving the later elements down and shortening the array removes exactly one element and keeps the order of the rest |
| `ServerConfig.TextsIndex` | multicast_kernel/multi_server/tools/multi_server_control/json_config.c:155-159 | comparing dotted texts finds the position that comparing addresses finds |
| `ServerConfig.PrintedAt` | multicast_kernel/multi_server/tools/multi_server_control/json_config.c:129-141 | an entry of the file is the group's address and its members as dotted texts, in order |
| `Members.JoinedIsUnion` | multicast_kernel/multi_server/kmod/multis_grp.c:129-159 | comparing new addresses with the old members only gives the union; the members stay distinct if and only if every repeated input address already was a member |
| `Members.JoinsAgree` | multicast_kernel/multi_server/tools/multi_server_control/json_config.c:152-165 | on distinct input the kernel's join and the configuration's join build the same list in the same order |
| `Members.QuitSwapIsDifference` | multicast_kernel/multi_server/kmod/multis_grp.c:273-293 | quitting with swap-in and shrinking count leaves distinct members, exactly the set difference |
| `Members.QuitSwapOne` | multicast_kernel/multi_server/kmod/multis_grp.c:280-291 | taking one member out moves the last one to its place, and every other stays at its own |
| `Members.FreshInOrder` | multicast_kernel/multi_server/kmod/multis_grp.c:129-159 | what a join adds comes in the order of the input list |
| `Members.QuitShiftIsDifference` | multicast_kernel/multi_server/tools/multi_server_control/json_config.c:166-170 | quitting by shifting leaves exactly the set difference, too |
| `Members.QuitShiftKeepsOrder` | multicast_kernel/multi_server/tools/multi_server_control/base_config.c:61-63 | and keeps the remaining members in their old order, for any input list |
| `MemberRows.AddVmIpList` | multicast_kernel/multi_server/kmod/multis_grp.c:129-159 | in place on the member array: refuses exactly when the sizes add up to more than the row, otherwise the row becomes the joined list, dense and zero behind its count, and no other row changes |
| `MemberRows.RowHolds` | multicast_kernel/multi_server/kmod/multis_grp.c:129-159 | a row holds its members in front and zeros behind them |
| `MemberRows.DelQuitVmIp` | multicast_kernel/multi_server/kmod/multis_grp.c:273-293 | in place: the row becomes the swap-removed list, zero behind its count, and no other row changes |
| `MemberRows.RemoveMember` | multicast_kernel/multi_server/kmod/multis_grp.c:280-291 | one address: the last member fills its place and the vacated place is zeroed |
| `MemberRows.FindMember` | multicast_kernel/multi_server/kmod/multis_grp.c:139-147 | the inner scan returns the first position of the address among the first members, or their number |
| `MemberRows.ClearVmIpList` | multicast_kernel/multi_server/kmod/multis_grp.c:178-185 | zeroes exactly one row |
| `MemberRows.GetVmIpList` | multicast_kernel/multi_server/kmod/multis_grp.c:163-175 | copies the members out in order |
| `Buckets.Table.Lookup` | multicast_kernel/multi_server/kmod/multis_grp.c:81-102 | stopping at the first free slot misses nothing: the result is the finite map's answer, the row is the key's, and 0 when there is none |
| `Buckets.Table.FindFree` | multicast_kernel/multi_server/kmod/multis_grp.c:350-353 | the search with an 8-bit counter finds the first free slot, or reports a full bucket, whenever the counter can reach the end of the bucket or a free slot |
| `Buckets.RowSearchEnds` | multicast_linux/server_proxy/multi_grp.c:175-203 | the search with an 8-bit counter ends if and only if the bucket has fewer than 256 rows or fewer than 256 entries |
| `Buckets.RowAfterWraps` | multicast_kernel/multi_server/kmod/multis_grp.c:321 | after n turns the counter stands at n modulo 256 |
| `Buckets.Table.Insert` | multicast_kernel/multi_server/kmod/multis_grp.c:352-357 | fills the first free slot and adds exactly one key to the map, keeping buckets packed, keys placed and unique |
| `Buckets.Table.FindLast` | multicast_kernel/multi_server/kmod/multis_grp.c:399-410 | the backward scan returns the bucket's last entry, or -1 when that is the one to delete |
| `Buckets.Table.Remove` | multicast_kernel/multi_server/kmod/multis_grp.c:399-439 | moving the last entry into the hole removes exactly one key from the map and keeps every invariant |
| `Buckets.Table.MoveInto` | multicast_kernel/multi_server/kmod/multis_grp.c:412-423 | the branch that moves |
| `Buckets.Table.DropLast` | multicast_kernel/multi_server/kmod/multis_grp.c:429-435 | the branch that only frees |
| `Buckets.Table.Keys` | multicast_kernel/multi_server/kmod/multis_grp.c:218-235 | leaving each bucket at its first free slot still lists every live key exactly once |
| `Buckets.Table.FillBound` | multicast_kernel/multi_server/kmod/multis_grp.c:350-353 | a bucket holds exactly the keys that hash to it, so never more than the table has |
| `Buckets.Table.Wipe` | multicast_kernel/multi_server/kmod/multis_grp.c:487 | zeroing a node in the middle of clearing removes exactly its key |
| `IndexPool.Pool.TestAndSet` | multicast_linux/server_proxy/multi_grp.c:20-32 | reports the old bit, sets it and changes no other bit of the packed bytes |
| `IndexPool.Pool.PutIdx` | multicast_linux/server_proxy/multi_grp.c:39-53 | clears exactly one bit |
| `IndexPool.Pool.GetIdx` | multicast_linux/server_proxy/multi_grp.c:60-72 | takes the lowest free index; fails, changing nothing, if and only if all are taken |
| `IndexPool.SetBits` | multicast_linux/server_proxy/multi_grp.c:29 | setting a mask's bit changes that bit only, over all bytes and positions |
| `IndexPool.ClearBits` | multicast_linux/server_proxy/multi_grp.c:41 | clearing a mask's bit changes that bit only |
| `GroupModel.OwnerCount` | multicast_kernel/multi_server/kmod/multis_grp.c:342-374 | indices and live groups are in bijection: as many owned indices as groups, never more than the pool has |
| `GroupModel.AddNode` | multicast_kernel/multi_server/kmod/multis_grp.c:352-368 | a node on an unowned index adds its group and leaves every other group's members, index and counters alone |
| `GroupModel.DropNode` | multicast_kernel/multi_server/kmod/multis_grp.c:412-439 | dropping a node and emptying its row removes its group and nothing else |
| `GroupModel.ChangeMembers` | multicast_kernel/multi_server/kmod/multis_grp.c:329-337 | a new row and count change exactly one group |
| `GroupModel.ChangeStats` | multicast_kernel/multi_server/kmod/multis_grp.c:447-452 | a counter belongs to exactly one group |
| `GroupModel.TotalSplit` | multicast_kernel/multi_server/kmod/multis_nf.c:170-173 | the total of all counters does not depend on the order of summation |
| `GroupModel.TotalGrows` | multicast_kernel/multi_server/kmod/multis_nf.c:170-173 | counting for one group raises the total by exactly that amount |
| `GroupModel.KeptTotal` | multicast_kernel/multi_server/kmod/multis_grp.c:484-487 | what the total of the live groups loses when groups go is what their counters held |
| `GroupTable.Groups.LookupMultiNode` | multicast_kernel/multi_server/kmod/multis_grp.c:105-126 | returns the group's count, index, extra fields and members, or nothing |
| `GroupTable.Groups.AddMultiNode` | multicast_kernel/multi_server/kmod/multis_grp.c:318-379 | existing group: union or refusal for size; new group: refused exactly when no index is left or the bucket is full, and then nothing has leaked; otherwise created on the lowest free index with zeroed counters, and left empty when the list is too long |
| `GroupTable.Groups.CreateGroup` | multicast_kernel/multi_server/kmod/multis_grp.c:340-374 | the creating half of it, including the collision path |
| `GroupTable.Groups.Reserve` | multicast_kernel/multi_server/kmod/multis_grp.c:342-374 | index and slot are taken together or not at all: on a collision the index goes back to the pool |
| `GroupTable.Groups.PlaceNode` | multicast_kernel/multi_server/kmod/multis_grp.c:352-360 | the new node starts with no members and zeroed counters on an index no other group owns |
| `GroupTable.Groups.AppendMembers` | multicast_kernel/multi_server/kmod/multis_grp.c:329-338 | joining touches only that group's members |
| `GroupTable.Groups.VmQuitFromMultiGrp` | multicast_kernel/multi_server/kmod/multis_grp.c:295-316 | quitting touches only that group's members; a missing group is reported |
| `GroupTable.Groups.DelMultiNode` | multicast_kernel/multi_server/kmod/multis_grp.c:381-445 | removes exactly the group: every other one keeps members, index and counters although its node may have moved; the index is free and its row zero again; the answer is success even for a missing group |
| `GroupTable.Groups.ClearNode` | multicast_kernel/multi_server/kmod/multis_grp.c:484-487 | while clearing, one node goes with its bit, its counter and its row, and no other slot changes |
| `GroupTable.Groups.ClearMultiGroup` | multicast_kernel/multi_server/kmod/multis_grp.c:473-492 | afterwards no group is left, no bit is set, and the whole invariant holds again although buckets had holes on the way |
| `GroupTable.Groups.MultiNodeInit` | multicast_kernel/multi_server/kmod/multis_grp.c:495-507 | zeroing everything gives a valid empty table whatever was there |
| `GroupTable.Groups.MultiGrpStats` | multicast_kernel/multi_server/kmod/multis_grp.c:447-452 | counts one packet for the owner of the index and for no other group |
| `GroupTable.Groups.GetMultiPktStats` | multicast_kernel/multi_server/kmod/multis_grp.c:454-471 | reads the counters of exactly that group |
| `GroupTable.Groups.GetAllMultiGrp` | multicast_kernel/multi_server/kmod/multis_grp.c:218-235 | lists each live group exactly once |
| `GroupTable.Groups.OwnerOf` | multicast_kernel/multi_server/kmod/multis_grp.c:119-121 | the index a lookup hands out is owned by the group looked up |
| `GroupTable.Groups.PoolCount` | multicast_kernel/multi_server/kmod/multis_grp.c:52-64 | as many bits are set as there are groups |
| `GroupTable.Groups.FillCount` | multicast_linux/server_proxy/multi_grp.c:203-206 | no bucket holds more entries than there are groups |
| `GroupTable.Groups.DeepBuckets` | multicast_linux/server_proxy/multi_grp.c:227-230 | with buckets at least as deep as the pool is large, only an empty pool can refuse a new group: the collision path is dead |
| `GroupTable.SmallIndices` | multicast_kernel/multi_server/include/grp.h:9 | the 8-bit index field tells all indices of a pool apart if and only if the pool has at most 256 |
| `Dotted.IpRoundTrip` | multicast_kernel/multi_server/tools/multi_server_control/parse_arg.h:3-16 | a printed address parses to itself |
| `Dotted.ParseIsText` | multicast_kernel/multi_server/tools/multi_server_control/parse_arg.h:3-16 | a text parses to an address if and only if it is the address as printed: no leading zeros, no other forms |
| `Dotted.IpTextIs` | multicast_kernel/multi_server/tools/multi_server_control/json_config.c:16-21 | an address prints as its four octets, most significant first, with dots between them |
| `Dotted.KnownText` | multicast_kernel/multi_server/tools/multi_server_control/json_config.c:16-21 | 0xC0A80001 prints as 192.168.0.1 |
| `Dotted.SameText` | multicast_kernel/multi_server/tools/multi_server_control/json_config.c:16-21 | two addresses print alike only when they are equal |
| `Dotted.SplitJoinWords` | multicast_kernel/multi_server/tools/multi_server_control/parse_arg.h:70-96 | splitting at a separator undoes joining with it |
| `Dotted.JoinSplit` | multicast_kernel/multi_server/tools/multi_server_control/parse_arg.h:70-96 | and joining undoes splitting, for every text |
| `Dotted.SplitIsPieces` | multicast_kernel/multi_server/tools/multi_server_control/parse_arg.h:70-96 | the pieces are exactly the texts without the separator that stand between two separators, or between one and an end |
| `Dotted.SplitCount` | multicast_kernel/multi_server/tools/multi_server_control/parse_arg.h:17-35 | there is one piece more than separators |
| `CommandLine.MultiRangeNum` | multicast_kernel/multi_server/tools/multi_server_control/parse_arg.h:17-35 | counting commas and adding one counts the pieces of the list |
| `CommandLine.ParseService` | multicast_kernel/multi_server/tools/multi_server_control/parse_arg.h:45-100 | the two-pointer loop refuses a text for its number exactly when it has as many commas as the limit or more, refuses it as malformed exactly when it has fewer and some piece between commas is 128 characters or longer or no address, and otherwise reads the list |
| `CommandLine.ReadListRefuses` | multicast_kernel/multi_server/tools/multi_server_control/parse_arg.h:63-84 | the two refusals as equivalences on the text alone, its commas and its pieces |
| `CommandLine.CollectRefuses` | multicast_kernel/multi_server/tools/multi_server_control/parse_arg.h:74-84 | one piece that cannot be read makes the whole list unreadable, and nothing else does |
| `CommandLine.CollectKeepsOrder` | multicast_kernel/multi_server/tools/multi_server_control/parse_arg.h:85-92 | of two addresses read the one named first in the text comes first |
| `CommandLine.ReadListMeaning` | multicast_kernel/multi_server/tools/multi_server_control/parse_arg.h:36-97 | a list that is read is distinct, within the limit, in the order of first mention, and holds exactly the addresses that stand between commas of the text, except those from 224.0.0.0 to 239.255.255.255 |
| `CommandLine.CollectIsClean` | multicast_kernel/multi_server/tools/multi_server_control/parse_arg.h:85-92 | in particular repeated and multicast addresses are dropped |
| `CommandLine.ReadListBack` | multicast_kernel/multi_server/tools/multi_server_control/parse_arg.h:45-100 | reading back a printed member list gives the list, in order |
| `CommandLine.ReadBack` | multicast_kernel/multi_server/tools/multi_config_control/json_config.c:66-83 | splitting a printed command at blanks and parsing it gives the join of that group with all its members, an empty group included |
| `CommandLine.CommandIsWords` | multicast_kernel/multi_server/tools/multi_config_control/json_config.c:67-83 | the printed text is the shell words with blanks between them |
| `CommandLine.CommandForm` | multicast_kernel/multi_server/tools/multi_config_control/json_config.c:66-83 | in the administrator's words: program, -A -m group, and -j with a comma between members if there are any |
| `Recovery.PrintCommand` | multicast_kernel/multi_server/tools/multi_config_control/json_config.c:66-83 | the buffer holds, up to its terminator, exactly the command text, and nothing is written past its end |
| `Recovery.PrintList` | multicast_kernel/multi_server/tools/multi_config_control/json_config.c:74-83 | the loop prints each member with a comma and the last comma is overwritten by the terminator |
| `Recovery.CommasAreJoin` | multicast_kernel/multi_server/tools/multi_config_control/json_config.c:77-83 | dropping the last comma leaves the members joined |
| `Recovery.FewMembersFit` | multicast_kernel/multi_server/tools/multi_config_control/json_config.c:51 | the 4096-byte buffer is large enough for every group of up to 253 members |
| `Recovery.LongTextsFit` | multicast_kernel/multi_server/tools/multi_config_control/json_config.c:51 | among addresses that print at full length it is large enough for no more than that |
| `Recovery.SomeGroupsDoNotFit` | multicast_kernel/multi_server/tools/multi_config_control/json_config.c:51 | a group of 254 distinct unicast members that every configuration limit of at least 254 accepts does not fit |
| `Recovery.ReplayStep` | multicast_kernel/multi_server/tools/multi_config_control/json_config.c:59-86 | replaying one more saved group appends exactly it to what has been rebuilt |
| `Recovery.RebuiltIffHoused` | multicast_kernel/multi_server/tools/multi_config_control/json_config.c:59-86 | the kernel table that the replay builds agrees with the saved list if and only if no bucket has to hold more of its groups than it is deep |
| `Recovery.ReplayFits` | multicast_kernel/multi_server/tools/multi_config_control/json_config.c:59-86 | what fits the buckets altogether fits them one group after another |
| `Recovery.Recover` | multicast_kernel/multi_server/tools/multi_config_control/json_config.c:46-91 | replaying the printed commands on an empty server rebuilds the saved list exactly, order included; the kernel agrees with it if and only if the groups fit its buckets |
| `Recovery.RunUnicast` | multicast_kernel/multi_server/tools/multi_server_control/parse_arg.h:85-92 | every list that commands from the parser can build is one the parser reads back |
| `Recovery.SaveAndRecover` | multicast_kernel/multi_server/scripts/multis:61-102 | stop and start: after any run of commands and packets from an empty configuration the recovered server has the same saved list, in order, and the same directory; its kernel agrees if and only if the groups fit its buckets, and so whenever the first server's replicas agreed and the shapes are the same |
| `ClientTable.Nodes.SpinsForever` | multicast_kernel/multi_client/kmod/multic_grp.c:133-147 | the search for a free row never stops if and only if the table has room, the source is new, the bucket has at least 256 rows and 256 of them are taken |
| `ClientTable.Nodes.AddMultiNode` | multicast_kernel/multi_client/kmod/multic_grp.c:103-154 | for every size, unless that search never stops: full table, known entry, changed entry, full bucket or new entry: each answer exactly when it is due, and the map changes only on success |
| `ClientTable.Nodes.DelMultiNode` | multicast_kernel/multi_client/kmod/multic_grp.c:160-216 | removes exactly the entry and keeps the count equal to the number of entries |
| `ClientTable.Nodes.ClearMultiNode` | multicast_kernel/multi_client/kmod/multic_grp.c:218-233 | leaves an empty table with count zero |
| `ClientTable.Nodes.ListAllMultiGrp` | multicast_kernel/multi_client/kmod/multic_grp.c:75-101 | lists each entry once, as many as the count says |
| `ClientTable.Nodes.LookupIpPortNode` | multicast_kernel/multi_client/kmod/multic_grp.c:54-72 | is the map's answer |
| `ClientConfig.Config.AddToConfig` | multicast_kernel/multi_client/tools/multi_client_control/json_config.c:86-144 | refused exactly when the array is missing, full, or already has the same entry; otherwise adds or repoints exactly one source |
| `ClientConfig.Config.DelFromConfig` | multicast_kernel/multi_client/tools/multi_client_control/json_config.c:161-201 | removes exactly one source, or fails and changes nothing |
| `ClientConfig.Config.ClearConfig` | multicast_kernel/multi_client/tools/multi_client_control/json_config.c:218-230 | removes the array and every entry |
| `ClientConfig.DenotesDelete` | multicast_kernel/multi_client/tools/multi_client_control/json_config.c:187-190 | closing the hole removes exactly that source from the map |
| `ClientAdmin.MulticastClient.ServiceAdd` | multicast_kernel/multi_client/tools/multi_client_control/app_control.c:101-115 | success if and only if the map accepts, and both replicas hold the map's next state, also when the bucket is full; a refused add, withdrawn or not, leaves the saved list exactly as it was |
| `ClientAdmin.MulticastClient.ServiceDel` | multicast_kernel/multi_client/tools/multi_client_control/app_control.c:117-130 | both replicas lose the entry; the kernel never refuses, so the undo is dead code |
| `ClientAdmin.MulticastClient.ClientClear` | multicast_kernel/multi_client/tools/multi_client_control/app_control.c:139-143 | both are empty afterwards |
| `ClientAdmin.MulticastClient.Exec` | multicast_kernel/multi_client/tools/multi_client_control/app_control.c:101-143 | one command is one step of the map, and the replicas agree |
| `ClientAdmin.AcceptsIs` | multicast_kernel/multi_client/tools/multi_client_control/app_control.c:101-115 | an add is accepted exactly while the table has room, for a change of group, or for a new source while fewer sources share its bucket than that is deep |
| `ClientAdmin.Run` | multicast_kernel/multi_client/tools/multi_client_control/app_control.c:101-143 | so they agree on the fold of the commands after every run in which no search spins |
| `ClientAdmin.SmallNeverSpins` | multicast_kernel/multi_client/kmod/multic_grp.c:106-147 | with fewer than 256 rows to a bucket, or at most 256 nodes, none does |
| `ClientAdmin.MulticastClient.FullIsCrowded` | multicast_kernel/multi_client/kmod/multic_grp.c:133-149 | a full bucket, and a search that never stops, are known from the map |
| `ClientAdmin.NeverOverfull` | multicast_kernel/multi_client/kmod/multic_grp.c:110-111 | no run of commands makes the map larger than the limit |
| `ClientRace.StepSafe` | multicast_kernel/multi_client/kmod/multic_grp.c:103-233 | for every size, a spinning search included: with threads interleaving at every shared write, each step keeps the lock exclusive, the count in step with the table according to where the lock's holder stands, and the sum of count and uncounted threads bounded |
| `ClientRace.RunSafe` | multicast_kernel/multi_client/kmod/multic_grp.c:110-146 | after every interleaving: with the lock free the count is the number of nodes, and neither ever exceeds the limit by more than the number of threads less one |
| `ClientOrder.OrderDecides` | multicast_kernel/multi_client/kmod/multic_grp.c:113-232 | and with the lock free the table holds what the operations make of the empty one, one after another in the order in which they took the lock |
| `ClientOrder.LateIsStep` | multicast_kernel/multi_client/kmod/multic_grp.c:110-144 | where there is room each of them is the command's step of the map |
| `ClientCalls.OvershootReached` | multicast_kernel/multi_client/kmod/multic_grp.c:110-144 | that bound is reached for every limit and every number of threads, by any sources that find a place one after another |
| `ClientCalls.DeepIsPlaceable` | multicast_kernel/multi_client/kmod/multic_grp.c:133-147 | as any different sources do when buckets are deep enough and the row counter reaches them |
| `ClientCalls.SpinsReached` | multicast_kernel/multi_client/kmod/multic_grp.c:106-147 | the endless search is reached: of 257 different sources of one bucket the last is never placed, when the bucket has 256 rows or more and the table room |
| `ClientCalls.CallIsStep` | multicast_kernel/multi_client/kmod/multic_grp.c:103-233 | one thread's uninterrupted steps, for an add, a delete or a clear, are the command's step of the map with the matching count |
| `ClientCalls.SeenUncounted` | multicast_kernel/multi_client/kmod/multic_grp.c:138-144 | in the middle of an add the new node is in the table and not in the count |
| `ClientCalls.GoneCounted` | multicast_kernel/multi_client/kmod/multic_grp.c:190-211 | in the middle of a delete it is gone and still counted |
| `ClientHook.Hook.LocalIn` | multicast_kernel/multi_client/kmod/multic_nf.c:56-122 | of a readable UDP packet with the mark, the entry for its source and its own port decides, whatever port 0 is mapped to; without it the entry for port 0 does; it is readdressed and counted once, with its stated length. Every other packet, and one with neither entry, is untouched and uncounted |
| `ClientHook.EndToEnd` | multicast_kernel/multi_client/kmod/multic_nf.c:83-113 | server hook, a journey that may change TTL and header checksum, then client hook, with a table whose entry for source and port, or else for port 0, is the group: destination, UDP header with checksum, and payload are back, fragments included; of the header only TTL, TOS and checksum differ, and the checksum is right if it was on arrival and the packet is no later fragment |
| `ClientHook.Journey` | multicast_kernel/multi_client/kmod/multic_nf.c:56-122 | the same through the client's hook itself, on the table it looks up: the packet handed up is addressed to the group again and counted |
| `ClientHook.CheckReturns` | multicast_kernel/multi_client/kmod/multic_nf.c:107 | with nothing changed on the way the header checksum field returns, too |
| `ClientHook.ClientHeaderGood` | multicast_kernel/multi_client/kmod/multic_nf.c:106-113 | a right header stays right if and only if the packet is no later fragment or the two addresses weigh the same; a good UDP checksum stays good |
| `PacketRewrite.RedirectGoodIff` | multicast_kernel/multi_server/kmod/multis_nf.c:139-140 | the condition itself: the guard of the update, or equal sums of the two addresses modulo 65535 |
| `PacketRewrite.RedirectByOffset` | multicast_kernel/multi_client/kmod/multic_nf.c:106-113 | for every setting of the three flags and every offset: the rewrite touches destination and checksums alone; with offset 0 a right header stays right and a good UDP checksum good, with any other both are left as they were, and the header is right if and only if the two addresses weigh the same |
| `PacketRewrite.ServerRewriteByOffset` | multicast_kernel/multi_server/kmod/multis_nf.c:125-146 | the server's copy, field by field: TTL at least 64, TOS 0xE0, the member, the checksums and nothing else; and its header is right, for every flags and offset, if and only if the update was made and neither edit changed anything, or the three edits cancel |
| `PacketRewrite.RewriteRoundTrip` | multicast_kernel/multi_server/kmod/multis_nf.c:125-146 | the round trip itself; the header checksum field returns if and only if it was not 0xffff or the packet is a later fragment |
| `PacketRewrite.Replace4Back` | multicast_kernel/multi_server/kmod/multis_nf.c:140 | updating there and back restores a checksum if and only if it is not 0xffff |
| `PacketRewrite.ReplaceUdpBack` | multicast_kernel/multi_server/kmod/multis_nf.c:141-145 | the UDP checksum, with its 0 to 0xffff rule, is always restored |
| `PacketRewrite.Replace4Value` | multicast_kernel/multi_server/kmod/multis_nf.c:140 | equation 3 of section 3 of RFC 1624 moves the checksum by the difference of the addresses modulo 65535 |
| `PacketRewrite.RedirectIsRecompute` | multicast_kernel/multi_client/kmod/multic_nf.c:107 | on a right header the update is the full recomputation of section 3.1 of RFC 791 |
| `PacketRewrite.RedirectKeepsUdp` | multicast_kernel/multi_server/kmod/multis_nf.c:141-145 | a UDP checksum that verifies still verifies after the rewrite, on either hook |
| `PacketRewrite.ServerHeaderGoodIff` | multicast_kernel/multi_server/kmod/multis_nf.c:125-140 | the server edits TTL and TOS outside the update, so its header checksum is right if and only if neither edit changed the packet; on a later fragment, where nothing is updated, if and only if the three edits cancel modulo 65535 |
| `ServerHook.Hook.LocalOut` | multicast_kernel/multi_server/kmod/multis_nf.c:70-177 | case by case: a packet that is not UDP changes nothing, one to an unknown group the count of those only, one to a group without members that count only; otherwise one copy for each member in order; on kernels that send a copy through the chain the hook is registered on, the copy passes the hook again before it is counted, to any depth to which groups nest |
| `ServerHook.Hook.SendAll` | multicast_kernel/multi_server/kmod/multis_nf.c:109-174 | the member loop makes exactly the specified copies |
| `ServerHook.PassGrew` | multicast_kernel/multi_server/kmod/multis_nf.c:170-173 | every copy that leaves, however deep it came about, is counted once for a group and once for the host |
| `ServerHook.PassAllIsOnce` | multicast_kernel/multi_server/kmod/multis_nf.c:109-174 | when no copy passes the hook again, or no member is a group, a pass sends the rewrites for the members whose copy and route succeed, in order, and counts each fate; copies that pass again are counted as finding no group |
| `ServerHook.EveryMemberCounted` | multicast_kernel/multi_server/kmod/multis_nf.c:109-174 | then every member of a matched group with a readable packet is counted exactly once: sent, out of memory or without route |
| `ServerHook.WithoutCopies` | multicast_kernel/multi_server/kmod/multis_nf.c:85-106 | a packet without copies changes one counter at most, which one the table tells, and nothing else |
| `ServerHook.FlatPass` | multicast_kernel/multi_server/kmod/multis_nf.c:109-174 | for a readable packet to a group of plain addresses all books afterwards: the drops by kind, the global and the group's packets and bytes, no other group's, and the copies sent |
| `ServerHook.UnreadablePass` | multicast_kernel/multi_server/kmod/multis_nf.c:111-123 | of a packet without a readable UDP header nothing leaves, and only failed copies are counted |
| `ServerHook.NestedPass` | multicast_kernel/multi_server/kmod/multis_nf.c:164-174 | for a group whose member is a group: the inner group's copies leave first, rewritten twice, then the outer group's one; each group counts its own, and each inner copy finds no group |
| `ServerHook.NestedSent` | multicast_kernel/multi_server/kmod/multis_nf.c:164-174 | with every copy sent, exactly the inner members in order and then the inner group |
| `ServerHook.NestedEmpty` | multicast_kernel/multi_server/kmod/multis_nf.c:102-106 | a member that is an empty group: its copy is dropped there as one without members, and still leaves |
| `ServerHook.OutgoingAt` | multicast_kernel/multi_server/kmod/multis_nf.c:109-174 | the copy for a member stands behind just those sent before it |
| `ServerHook.OutgoingAll` | multicast_kernel/multi_server/kmod/multis_nf.c:109-174 | when every copy is sent each member gets one, in order |
| `ServerHook.OwnMemberNestsForever` | multicast_kernel/multi_server/kmod/multis_nf.c:164-168 | a group that is its own member nests without end: the hook's passes over its packets have no bound |
| `ServerHook.FlatNestsOnce` | multicast_kernel/multi_server/kmod/multis_nf.c:164-168 | where no member is a group one more pass ends it |
| `ServerHook.FatesPartition` | multicast_kernel/multi_server/kmod/multis_nf.c:109-174 | the three outcomes partition the members |
| `InternetChecksum.ServerChecksum` | multicast_linux/server_proxy/iph.c:7-24 | the loop computes the checksum of section 1 of RFC 1071, for every length, and the folding ends |
| `InternetChecksum.ClientChecksum` | multicast_linux/client_proxy/iph.c:8-35 | the 32-bit routine computes the same for every buffer up to 131074 bytes, and for longer ones the checksum of the wrapped sum |
| `InternetChecksum.TwoFolds` | multicast_linux/client_proxy/iph.c:31-33 | two folds and a truncation reach the same word as folding to the end, for every 32-bit sum |
| `InternetChecksum.SafeLengthIsSharp` | multicast_linux/client_proxy/iph.c:11-23 | at every length beyond 131074 there is a buffer on which the client's answer is wrong |
| `InternetChecksum.StoredVerifies` | multicast_linux/server_proxy/handleIncomeData.c:90-94 | zero the field, compute, store: the checksum over the whole is then 0, for every buffer and even offset |
| `InternetChecksum.OnlyStoredVerifies` | multicast_linux/server_proxy/handleIncomeData.c:94 | and no other value of the field verifies, up to the two forms of zero |
| `InternetChecksum.ByteOrderIndependent` | multicast_linux/server_proxy/iph.c:10-23 | swapping the bytes of every word swaps the bytes of the checksum (section 2, part B, of RFC 1071) |
| `InternetChecksum.NativeStoreIsPortable` | multicast_linux/server_proxy/handleIncomeData.c:94 | so both byte orders put the same two bytes into the packet without converting |
| `InternetChecksum.BigEndianChecksum` | multicast_linux/server_proxy/iph.c:10-23 | for a buffer of any length, odd ones included, the result is, byte-swapped, the complement of the sum of the words in network order, and the buffer verifies exactly when that sum folds to all ones |
| `InternetChecksum.KnownSum` | multicast_linux/server_proxy/iph.c:7-24 | the example of section 3 of RFC 1071 |
| `Datagram.RewriteReaddresses` | multicast_linux/server_proxy/handleIncomeData.c:89-99 | one turn of the loop changes only destination, TTL, port and the two checksums; both checksums verify |
| `Datagram.UdpCoversIs` | multicast_linux/server_proxy/iph.c:35-46 | what the UDP checksum covers, from the datagram's own fields: both addresses, protocol 17, the UDP length, and UDP header and data, as words in network order (RFC 768) |
| `WireFormat.GoodHeaderVerifies` | multicast_linux/server_proxy/iph.c:7-24 | the kernel hooks and the proxy mean the same header checksum: the decoded header is good if and only if its bytes verify and the field is not the second form of zero |
| `WireFormat.GoodUdpVerifies` | multicast_linux/server_proxy/iph.c:26-51 | and the same UDP checksum: the decoded datagram is good if and only if it has none or what the proxy sums up verifies |
| `WireFormat.RewriteIsGood` | multicast_linux/server_proxy/handleIncomeData.c:88-99 | so what the proxy sends is a good packet of the kernel's model too: member, port, TTL 127, good checksums, and every other field as it was |
| `Datagram.RewriteAgain` | multicast_linux/server_proxy/handleIncomeData.c:73-99 | rewriting what was already rewritten for another member gives the rewrite of the original |
| `Datagram.RewriteIpAgain` | multicast_linux/server_proxy/handleIncomeData.c:151-172 | the same for the header alone |
| `Proxy.UdpChecksum` | multicast_linux/server_proxy/iph.c:26-51 | building the pseudo header and copying the datagram gives, in network order, the complement of the sum of RFC 768: addresses, protocol 17, length, UDP header and data |
| `Proxy.ClientUdpChecksum` | multicast_linux/client_proxy/iph.c:37-65 | the client's routine gives the same word |
| `Proxy.RewriteInPlace` | multicast_linux/server_proxy/handleIncomeData.c:89-99 | the assignments to the one buffer perform the rewrite |
| `Proxy.Handler.FanOutUdp` | multicast_linux/server_proxy/handleIncomeData.c:60-142 | although one buffer is overwritten on every turn, the i-th datagram sent is the rewrite of the original packet for member i; the loop ends at the first failing send; a marked packet is not forwarded at all |
| `Proxy.Handler.FanOutVrrp` | multicast_linux/server_proxy/handleIncomeData.c:143-216 | the same for protocol 112, where only the header is rewritten and only completed sends are counted |
| `Proxy.Handler.HandleIncomingData` | multicast_linux/server_proxy/handleIncomeData.c:29-219 | the received bytes are zeroed, an unknown destination is dropped, an empty group, a marked packet and other protocols are let go, whatever lengths they state; the rest is fanned out, and the counters say which case it was |
| `Proxy.Handler.Forward` | multicast_linux/server_proxy/handleIncomeData.c:45-218 | the same from the lookup on, for the packet in the handler's own 4096 bytes |
| `Proxy.Handler.AnswerIs` | multicast_linux/server_proxy/handleIncomeData.c:45-218 | the answer in the packet's own bytes: which destination, TTL, identification and protocol lead to which case, what is sent for which member, where the sending stops, and every counter |
| `Proxy.CopiesAreReaddressed` | multicast_linux/server_proxy/handleIncomeData.c:88-129 | each datagram of a fan-out, cut to the length the header states, is the packet readdressed to its own member: every other byte kept, both checksums right, provided the stated length covers the datagram |
| `Proxy.VrrpCopiesAreReaddressed` | multicast_linux/server_proxy/handleIncomeData.c:166-203 | the same for protocol 112 and the header checksum |
| `Datagram.RewriteTake` | multicast_linux/server_proxy/handleIncomeData.c:71-126 | rewriting the whole buffer and sending its front is rewriting the front |
| `Userland.RowSearchReaches` | multicast_linux/server_proxy/multi_grp.c:196-230 | once an index was taken at most 255 groups are live, so the 8-bit search of a 1024-row bucket ends at a free row and the fallback is not reached |
| `Userland.LoadDistinct` | multicast_linux/server_proxy/config.c:66-101 | at most 256 groups with different addresses load to exactly themselves, members in order |
| `Userland.LoadRepeated` | multicast_linux/server_proxy/multi_grp.c:183-191 | a group configured again gets its further members behind its first ones, if they fit, and keeps its first ports |
| `Userland.LoadFull` | multicast_linux/server_proxy/multi_grp.c:196-201 | the 257th group is left out |
| `Userland.HashIgnoresWrap` | multicast_linux/server_proxy/multi_grp.c:93-96 | the hash is the product with 1023 modulo the number of buckets, the 32-bit wrap-around being harmless, and addresses share a bucket exactly when they agree modulo 2048 |
| `Userland.LoadGroup` | multicast_linux/server_proxy/config.c:66-101 | one configured group is one step of the load, also for a repeated address, too many members or too many groups |
| `Userland.CfgInit` | multicast_linux/server_proxy/config.c:34-103 | the loop loads the groups one after another and remembers their addresses |
| `Userland.Reload` | multicast_linux/server_proxy/config.c:553-555 | whatever the table held, zeroing and loading leaves the configuration's groups |
| `Userland.Startup` | multicast_linux/server_proxy/entry.c:23-25 | the proxy starts with exactly the configured groups |
| `Userland.LookupAfterReload` | multicast_linux/server_proxy/multi_grp.c:261-282 | a lookup finds each configured group with its member list in order and its server port, and nothing for any other address |

## Left out

- GroupTable.Groups.AddMultiNode: pools of more than 256 indices, as the kernel header's constant would ask for, are not modelled, because the 8-bit index field cannot tell such indices apart.
- ClientTable.Nodes.AddMultiNode: the call that never returns has no result to describe; in the state machine of the race its thread stays where it is, holding the lock.
- GroupTable.Groups.MultiGrpStats: packet and byte counters are unbounded numbers here; their wrap at 64 bits (32 bits in the userland proxy) is not modelled.
- Proxy.Handler.HandleIncomingData: of a packet that is to be fanned out it assumes a header of at least 20 bytes, and for UDP a datagram, whose stated lengths lie inside the handler's 4096-byte buffer; the source does not look. Its return value is not modelled (the UDP branch falls off the end of the function), nor are failures to allocate in the checksum routine.
- Datagram.RewriteReaddresses: a computed UDP checksum of 0 is stored as 0, as in the source; RFC 768 would send 0xffff.
- GroupTable.Groups.LookupMultiNode: it hands out both ports of a node; the userland lookup copies the server port only.
- GroupTable.Groups.MultiNodeInit: clearing by `memset` is one assignment to all slots.
- PacketRewrite.RedirectKeepsUdp: offloaded checksums (`CHECKSUM_PARTIAL`) and UDP headers outside the linear part of a buffer are not modelled; `csum_replace4` and `inet_proto_csum_replace4` are defined by section 3 of RFC 1624.
- Recovery.PrintCommand: commands longer than the 4096-byte buffer are excluded, because the source does not handle them.
- CommandLine.ReadBack: of the option parser only the form the recovery prints is modelled; usage texts and the other options are not.
- ServerHook.Hook.LocalOut: a pass over groups that nest without end has no result to describe; what the rest of the host does with a packet after the hook accepts it is not modelled.
- ClientRace.StepSafe: the bucket array is a map in this state machine, changed one write at a time; the lookups under the lock are not separate steps.
- The client's per-node receive counters, because deletion moves the key and not the counter, so they do not belong to a source.
- `append_vm_ip_list` and `list_multi_node_and_vm_ip`, easy variants of the operations above.
- The client's recovery tool, a simpler copy of the server's.
- Sockets, netlink messages, capture and tun devices, kernel buffers, threads and select loops; sends are entries of an output sequence.
- JSON parsing and writing, file locks, and configuration files edited by hand; a file is its array of records.
- The userland configuration commands (`json_add_list` and its neighbours) and the reload's group memberships on the socket.
- Reloading while the worker threads forward packets: the source takes no locks there.
- The Windows copies of the tables and checksums, and the small queue of the Windows server.
- The sources of the Linux client proxy's table and configuration are not part of this model.
