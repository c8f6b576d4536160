# Bulk IP adder: command synthesis, modelled in Dafny

`bulk_IP_add_automated.py` turns an ordered list of IP addresses into command lists for Juniper firewalls:
- a list that adds the addresses to address groups;
- a list that takes them out again.

It targets two device families:
- **ScreenOS (SSG)** uses `set` and `unset` commands;
- **Junos (SRX)** uses `set` and `delete` commands.

Addresses go into groups of at most `group_limit` (`g`). The 0-based address `i` belongs to group `i/g + 1`. A group name is `<prefix>_<description>`, followed by `_<group number>` only when the batch needs more than one group.

The Dafny project has these modules:

- `Decimal` — the decimal rendering of group numbers (`str(n)`), with a parser as its partner.
- `Partition` — the grouping arithmetic:
  - the group of each index;
  - the group count `(n-1)/g + 1`;
  - the two suffix decisions. The apply side is numbered when `(n-1)/g > 0` and the revert side when `n/g > 0`.
  - Python 2 integer division agrees with Dafny's `/` for `g >= 1`, including `(0-1)/g == -1`. `math.floor` then turns the quotient into a float, and `int` turns `group_num` back. A double holds every integer below 2^53 exactly, so the model keeps integers throughout.
- `Commands` — the parameters, group names and one `Cmd` constructor per command shape. `Render` yields the exact concatenation the source builds.
- `Ssg`, `Srx` — the four generators as the source writes them. Each also has a corrected revert generator (see Findings).
- `ScreenOsDevice` — an abstract ScreenOS configuration: address entries, groups and memberships. It rejects commands the device would refuse:
  - a duplicate address;
  - a membership for a missing address, or one that already exists;
  - removal of a missing membership;
  - deletion of a missing or non-empty group;
  - deletion of a missing address, or of one still used by a group;
  - any Junos command.

  Groups are keyed by their structured name. Within one batch this agrees with keying by the rendered name (`Commands.GroupLabelInjective`).

  Two ways of running a list are modelled:
  - `Run` stops at the first refused command. It states that every command is accepted.
  - `Send` is what `run_via_ssh_ssg` does: it sends every command, and a refused one leaves the configuration unchanged. The session lemmas are stated through `Send` and hold for every address list, repeated addresses included.

  Running the set commands and then the unset commands from an empty configuration is the round trip the tool exists to provide.
- `Session` — the pure parts of the SRX session driver:
  - the `configure`/`rollback` prologue and the `commit check`/`commit`/`exit` epilogue;
  - the three settle delays: 5 s, 1 s and 0.05 s;
  - the read loop that drains the channel.
- `Batch` — the constructors' defaults, the SSG and SRX batches and `BatchGroup.__str__`, the line-break join of the add and remove lists, with `split` as its partner.

All paths below are relative to the repository root.

## Model

| member | source | states |
|---|---|---|
| Decimal.ParseRendered | bulkIPAdder_SSH/bulk_IP_add_automated.py:236 | The decimal text `str(n)` used in `_<n>` parses back to `n`. Its result has at least one digit, only digits and no leading zero. |
| Decimal.RenderInjective | bulkIPAdder_SSH/bulk_IP_add_automated.py:266 | Two group numbers render to the same text exactly when they are equal. |
| Partition.GroupOfExact | bulkIPAdder_SSH/bulk_IP_add_automated.py:235 | Address `i` (0-based, `count_ips-1`) is in group `k` exactly when `(k-1)*g <= i < k*g`. |
| Partition.ApplyNumberedIff | bulkIPAdder_SSH/bulk_IP_add_automated.py:227 | The apply-side test `(n-1)/g > 0` holds exactly when `n > g`. |
| Partition.RevertNumberedIff | bulkIPAdder_SSH/bulk_IP_add_automated.py:259 | The revert-side test `n/g > 0` holds exactly when `n >= g`. |
| Partition.GroupCountIsCeiling | bulkIPAdder_SSH/bulk_IP_add_automated.py:275 | `(n-1)/g + 1` is 0 for no addresses. Otherwise it is the least `k` with `n <= k*g`, and it is 1 exactly when `1 <= n <= g`. |
| Partition.GroupsContiguous | bulkIPAdder_SSH/bulk_IP_add_automated.py:232-242 | Every address lands in a group numbered 1 to `k`. Every group number from 1 to `k` receives an address, namely the first one `(k-1)*g`. |
| Partition.GroupCapacity | bulkIPAdder_SSH/bulk_IP_add_automated.py:232-242 | Each group gets between 1 and `g` addresses. Every group but the last is full, and the last gets `n - (k-1)*g`. |
| Partition.TagsAgree | bulkIPAdder_SSH/bulk_IP_add_automated.py:259-266 | Whenever `n != g`, the revert side gives every address the same group tag as the apply side. |
| Partition.TagsDivergeAtLimit | bulkIPAdder_SSH/bulk_IP_add_automated.py:259-266 | When `n == g`, apply leaves every address unnumbered while revert gives it `_1`. |
| Partition.OnePastLimit | bulkIPAdder_SSH/bulk_IP_add_automated.py:227-236 | With `n == g+1`, the first `g` addresses go to `_1` and the last one alone to `_2`. |
| Partition.DeletionCoverage | bulkIPAdder_SSH/bulk_IP_add_automated.py:275-284 | For `n >= 1`, the tags the group deletions name are exactly the tags the memberships use, and no tag is deleted twice. For `n == 0` there are no deletions. |
| Commands.SuffixInjective | bulkIPAdder_SSH/bulk_IP_add_automated.py:236 | The suffix `""` or `_<n>` determines the tag it was built from. |
| Commands.GroupLabelInjective | bulkIPAdder_SSH/bulk_IP_add_automated.py:239-240 | Within one batch, two group names render alike exactly when their tags are equal. |
| Commands.Render | bulkIPAdder_SSH/bulk_IP_add_automated.py:222-288 | The text of a command is the concatenation of its pieces (`Parts`), in the order lines 222-223, 239-240, 269-270, 278-284 and 288 (and 452-455 and 484-487 for Junos) build them. Apply commands start with `set `, SSG revert commands with `unset ` and SRX revert commands with `delete `. |
| Commands.RenderSingleLine | bulkIPAdder_SSH/bulk_IP_add_automated.py:452-455 | A command whose fields hold no line break renders to a single line. |
| Ssg.SsgSetCommands | bulkIPAdder_SSH/bulk_IP_add_automated.py:208-245 | `gen_ssg_set_commands`: `2n` commands, all address definitions or memberships in the batch's zone. Commands `j` and `n+j` both concern address `j`. |
| Ssg.SsgUnsetCommands | bulkIPAdder_SSH/bulk_IP_add_automated.py:247-292 | `gen_ssg_unset_commands` as written: `2n+k` commands, all removals, group deletions or address deletions in the batch's zone, with the phases in that order. |
| Ssg.SsgSetLayout | bulkIPAdder_SSH/bulk_IP_add_automated.py:208-245 | The SSG set list has `2n` commands: the `n` address definitions in input order, then `n` memberships in input order. A membership is numbered by group exactly when `n > g`. |
| Ssg.SsgUnsetLayout | bulkIPAdder_SSH/bulk_IP_add_automated.py:247-292 | The SSG unset list has `2n+k` commands: `n` removals in input order (numbered exactly when `n >= g`), then exactly the `k` group deletions `GroupDeletions` builds, then `n` address deletions. No command of a later phase precedes one of an earlier phase, and `n == 0` gives the empty list. |
| Ssg.SsgGroupDeletions | bulkIPAdder_SSH/bulk_IP_add_automated.py:273-284 | The group deletions (the middle block of the unset list, by `Ssg.SsgUnsetLayout`) are: none when `n == 0`; one unsuffixed deletion when `1 <= n <= g`; otherwise one deletion each of `_1` to `_k` in increasing order, with `(k-1)*g < n <= k*g`. |
| Ssg.SsgDeletionCoverage | bulkIPAdder_SSH/bulk_IP_add_automated.py:273-284 | The set of groups the unset list deletes equals the set of groups the set list adds to. Both are empty when `n == 0`. |
| Ssg.SsgRevertNamesAgree | bulkIPAdder_SSH/bulk_IP_add_automated.py:258-271 | When `n != g`, the unset list equals the corrected one, and each removal names the group its address was added to. |
| Ssg.SsgRevertNamesDivergeAtLimit | bulkIPAdder_SSH/bulk_IP_add_automated.py:259-266 | When `n == g`, the memberships use the unsuffixed group while every removal names `_1`. The only deletion is of the unsuffixed group. |
| Ssg.SsgUnsetFixedLayout | bulkIPAdder_SSH/bulk_IP_add_automated.py:227-240 | With the apply-side test on the revert side, every removal names the group of the matching membership. The phases stay ordered and the length stays `2n+k`. |
| ScreenOsDevice.RunAppend | bulkIPAdder_SSH/bulk_IP_add_automated.py:174-190 | For a run in which every command is accepted, running `a + b` is running `a` and then `b` from the state it reaches; if `a` is refused, so is `a + b`. |
| ScreenOsDevice.ApplyState | bulkIPAdder_SSH/bulk_IP_add_automated.py:208-245 | From an empty configuration with distinct addresses, the set list is accepted. It leaves exactly the addresses, the groups in use and one membership per address. |
| ScreenOsDevice.SsgRoundTripFixed | bulkIPAdder_SSH/bulk_IP_add_automated.py:247-292 | For any `n` and `g` and distinct addresses, the set list followed by the corrected unset list is accepted and returns the device to an empty configuration. |
| ScreenOsDevice.SsgRoundTrip | bulkIPAdder_SSH/bulk_IP_add_automated.py:247-292 | When `n != g` and the addresses are distinct, the set list followed by the unset list as written is accepted and returns the device to empty. |
| ScreenOsDevice.Send | bulkIPAdder_SSH/bulk_IP_add_automated.py:174-190 | The driver's loop sends every command in order, a refused one leaving the configuration as it was. When no command is refused, the session ends in the state `Run` reaches. |
| ScreenOsDevice.SendAppend | bulkIPAdder_SSH/bulk_IP_add_automated.py:174-190 | Sending `a + b` in one session is sending `a` and then `b` from the state it leaves, whether or not any command was refused. |
| ScreenOsDevice.SendApplyState | bulkIPAdder_SSH/bulk_IP_add_automated.py:208-245 | For any address list, repeated addresses included, sending the set list to an empty configuration leaves exactly the addresses, the groups in use and one membership per distinct address and group. |
| ScreenOsDevice.SendAllRefused | bulkIPAdder_SSH/bulk_IP_add_automated.py:174-190 | When the device refuses every command, sending the whole list leaves it unchanged. |
| ScreenOsDevice.SsgSessionRoundTrip | bulkIPAdder_SSH/bulk_IP_add_automated.py:174-190 | For every address list, repeated addresses included, a session of the set commands and then the corrected unset commands leaves an empty device. So does the unset list as written, whenever `n != g`. |
| ScreenOsDevice.SsgSessionUnchangedAtLimit | bulkIPAdder_SSH/bulk_IP_add_automated.py:259 | When `n == g`, for any address list, repeated addresses included, the device refuses all `2n+1` unset commands as written: the removals name the empty `_1`, the unsuffixed group still has members, and every address is still referenced. The configuration stays exactly as the set commands left it, which is not empty. |
| ScreenOsDevice.SsgRoundTripFailsAtLimit | bulkIPAdder_SSH/bulk_IP_add_automated.py:259 | When `n == g`, for any address list, the set list followed by the unset list as written is rejected. With distinct addresses the first removal names a membership that was never made; a repeated address is refused even earlier, at its second definition. |
| ScreenOsDevice.SetRefusesRepeat | bulkIPAdder_SSH/bulk_IP_add_automated.py:219-223 | When an address occurs twice in the list, `Run` rejects the set list from an empty device: the second `set address` for the same zone and address is refused. |
| Srx.SrxSetCommands | bulkIPAdder_SSH/bulk_IP_add_automated.py:425-461 | `gen_srx_set_commands`: `2n` commands, all address-book entries or address-set memberships in the batch's zone. |
| Srx.SrxDeleteCommands | bulkIPAdder_SSH/bulk_IP_add_automated.py:463-493 | `gen_srx_delete_commands` as written: `2n` commands, all membership or entry deletions in the batch's zone. |
| Srx.SrxSetLayout | bulkIPAdder_SSH/bulk_IP_add_automated.py:425-461 | The SRX set list has `2n` commands. Position `2i` is the address-book entry `ip ip/32` of address `i`; position `2i+1` is its address-set membership, numbered exactly when `n > g`. |
| Srx.SrxSetIgnoresNetmask | bulkIPAdder_SSH/bulk_IP_add_automated.py:425-461 | The netmask argument has no effect on the SRX set list. |
| Srx.SrxDeleteLayout | bulkIPAdder_SSH/bulk_IP_add_automated.py:463-493 | The SRX delete list has `2n` commands. Position `2i` deletes the membership of address `i` (numbered exactly when `n >= g`); position `2i+1` deletes its entry. Nothing else is deleted, and in particular no address-set as a whole. |
| Srx.SrxDeleteFixedUndoesSet | bulkIPAdder_SSH/bulk_IP_add_automated.py:442-458 | The corrected delete list undoes the set list pair by pair: the membership first, then the entry, with the same zone, set name and address. |
| Srx.SrxDeleteAgrees | bulkIPAdder_SSH/bulk_IP_add_automated.py:472-481 | When `n != g`, the delete list as written equals the corrected one. |
| Srx.SrxDeleteMissesAtLimit | bulkIPAdder_SSH/bulk_IP_add_automated.py:472 | When `n == g`, every membership deletion names `_1`, which the set list never created, so none of them undoes its membership. |
| Session.Insert | bulkIPAdder_SSH/bulk_IP_add_automated.py:369-370 | `list.insert` puts the element at the index and keeps everything before and after it in order. |
| Session.SrxSession | bulkIPAdder_SSH/bulk_IP_add_automated.py:369-373 | The list sent has `|cmds|+5` entries: the prologue `configure`, `rollback`, then the commands as one slice, then the epilogue `commit check`, `commit`, `exit`. |
| Session.SettleDelay | bulkIPAdder_SSH/bulk_IP_add_automated.py:381-389 | Only the driver's own commands wait longer than the short delay. The prologue commands wait the medium time and the two commits the long time. Every other command, `exit` included, waits the short time. |
| Session.SrxSessionShape | bulkIPAdder_SSH/bulk_IP_add_automated.py:369-373 | The list sent is `configure`, `rollback`, the commands, then `commit check`, `commit`, `exit`. Its length is `|cmds|+5`, and it holds the commands in order as one slice. |
| Session.RenderedIsNoKeyword | bulkIPAdder_SSH/bulk_IP_add_automated.py:381-389 | No generated command is a session keyword, so each gets the short delay. |
| Session.SrxSessionDelays | bulkIPAdder_SSH/bulk_IP_add_automated.py:381-389 | Over a session of generated commands the delays are: Medium for the first two, Short for each generated command, Long for `commit check` and `commit`, and Short for `exit`. |
| Session.DrainChannel | bulkIPAdder_SSH/bulk_IP_add_automated.py:394-398 | The read loop stops at the first read shorter than 1024, at the end of the channel, or at a timeout. Its output is the concatenation of the reads up to and including the short one, and every earlier read was full. |
| Batch.Resolve | bulkIPAdder_SSH/bulk_IP_add_automated.py:99-109 | The constructors keep every supplied argument and fill in each missing one with its default: `255.255.255.255`, today's date, `Deny_addr`, `V1-Untrust` and 256. The generators can run exactly when the group limit is left out or supplied as at least 1. |
| Batch.ResolveKeepsSupplied | bulkIPAdder_SSH/bulk_IP_add_automated.py:303-312 | Supplying every argument passes the parameters through unchanged, and resolving the outcome's own arguments again changes nothing. |
| Batch.SsgBatch | bulkIPAdder_SSH/bulk_IP_add_automated.py:126-132 | The SSG constructor's add list has `2n` lines, each starting `set `, and its remove list `2n+k` lines, each starting `unset `. |
| Batch.SrxBatch | bulkIPAdder_SSH/bulk_IP_add_automated.py:326-332 | The SRX constructor's add list has `2n` lines, each starting `set `, and its remove list `2n` lines, each starting `delete `. |
| Batch.Join | bulkIPAdder_SSH/bulk_IP_add_automated.py:75 | `"\n".join`: empty for no lines; otherwise it starts with the first line, followed by a line break when there is a second. |
| Batch.Text | bulkIPAdder_SSH/bulk_IP_add_automated.py:74-75 | `BatchGroup.__str__`: empty for an empty batch; otherwise it starts with the first add command, or with the first remove command when there are no add commands. |
| Batch.SplitJoin | bulkIPAdder_SSH/bulk_IP_add_automated.py:75 | Splitting the joined text of a non-empty list of single-line commands at line breaks gives back the list. |
| Batch.TextRoundTrip | bulkIPAdder_SSH/bulk_IP_add_automated.py:74-75 | The text of a batch with single-line commands splits into the add commands followed by the remove commands. |
| Batch.SsgTextRoundTrip | bulkIPAdder_SSH/bulk_IP_add_automated.py:126-135 | For a non-empty list of single-line inputs, the SSG batch's text splits back into its set commands followed by its unset commands. |
| Batch.SrxTextRoundTrip | bulkIPAdder_SSH/bulk_IP_add_automated.py:321-331 | For a non-empty list of single-line inputs, the SRX batch's text splits back into its set commands followed by its delete commands. |

## Left out

- SSH transport is not modelled: sockets, paramiko, authentication, `send`/`recv`, `time.sleep`, closing the channel and the `trouble` notes (lines 149-206 and 357-423). This is network I/O.
  - Only the pure read loop is modelled, as `Session.DrainChannel` over a finite list of reads. The SSG driver runs the same loop at lines 182-186.
  - The SSG driver's final read (lines 193-198) and the `replace` that trims it are not modelled.
- The delays are three classes (`Session.Delay`), not floating-point seconds.
- `run_via_ssh_srx` inserts and appends into the caller's list, which is the batch's own stored list (lines 369-373). The model wraps a copy, so `BatchGroup.__str__` after a run, which would include the wrap, is not modelled.
- The `commands` strings built and never used at lines 338-339 and 346-347 are dead code.
- `main` is not modelled: argument parsing, file reading, prompts, `getpass` and printing (lines 495-600) are user interaction.
- IP tokens are taken as already stripped, as `main` guarantees at line 543, so `rstrip` is the identity. The SSG `unset address` commands (line 288) use the token without stripping. That is the same token once it is stripped.
- The constructor defaults are filled in by `Batch.Resolve`. The `date.today()` default for the description depends on the clock, so the date is a parameter of `Resolve`. The `addr_description=""` signature default is the caller's concern, since `main` always passes one. The SSG default user `netscreen` and the SRX default user `root` belong to the transport.
- The SSG constructor's exception for a missing `ip_addrs` (lines 114-115) has no counterpart, because a Dafny sequence is never absent.
- `group_limit` must be at least 1 in every member. The source does not check it: 0 raises ZeroDivisionError and negative values give meaningless groups.
- `ScreenOsDevice` is an abstraction of a ScreenOS configuration that keeps only what the round trip needs. Junos commands are not run against a device; their delete list is related to their set list command by command instead (`Srx.Undoes`).
- The SRX entry deletion keeps the `ip ip/32` tail exactly as the source builds it (lines 484-485).
- `sendEmailNotification.js` is not part of this model. It is mail-service glue with no logic of its own.
- ScreenOsDevice.SsgRoundTripFixed: stated only for distinct addresses, because it is stated through `Run`, and a repeated address makes `Run` stop at its second definition, which ScreenOS refuses. The driver's session has no such condition: `ScreenOsDevice.SsgSessionRoundTrip` holds for every address list.
- ScreenOsDevice.SsgRoundTrip: stated through `Run` and only for distinct addresses, for the same reason. It promises that every command is accepted and the device ends empty; the driver never stops at a refusal, and for every list `ScreenOsDevice.SsgSessionRoundTrip` states what its session does.
- Batch.SsgTextRoundTrip: stated only for inputs without line breaks and with at least one address. A line break inside a field splits a command in two, and `"\n".join([])` and `"\n".join([""])` both give `""`.
- Batch.SrxTextRoundTrip: stated under the same conditions, for the same reasons.

## Findings

| source | as written | input that shows it | evidently intended | confidence | as-written member | corrected member |
|---|---|---|---|---|---|---|
| bulkIPAdder_SSH/bulk_IP_add_automated.py:259 | the removals are numbered when `floor(len/g) > 0`, i.e. `n >= g` | `g = 2` with the two distinct addresses `1.1.1.1` and `2.2.2.2`: both are added to the unsuffixed group, then `unset ... "<prefix>_<descr>_1" remove "1.1.1.1"` names a membership that does not exist. The device refuses every unset command, and both addresses stay configured in their group | the apply-side test `floor((len-1)/g) > 0` of line 227, so removals name the groups the memberships used | not executed | ScreenOsDevice.SsgSessionUnchangedAtLimit | ScreenOsDevice.SsgSessionRoundTrip |
| bulkIPAdder_SSH/bulk_IP_add_automated.py:472 | the SRX membership deletions are numbered when `floor(len/g) > 0`, i.e. `n >= g` | `g = 2` with two addresses: the set list puts both in `<prefix>_<descr>`, and the delete list deletes them from `<prefix>_<descr>_1` | the test of line 442, so each deletion names the address-set the set list used | not executed | Srx.SrxDeleteMissesAtLimit | Srx.SrxDeleteFixedUndoesSet |

The generators as written are what `Batch.SsgBatch` and `Batch.SrxBatch` build. The corrected ones are `Ssg.SsgUnsetCommandsFixed` and `Srx.SrxDeleteCommandsFixed`. For every `n != g` they coincide with the generators as written (`Ssg.SsgRevertNamesAgree`, `Srx.SrxDeleteAgrees`).
