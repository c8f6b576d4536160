/** A model ScreenOS configuration that the SSG commands act on, used to
    state that the unset commands undo the set commands. The device
    refuses a command that would leave a dangling reference or duplicate
    an object: it will not delete a group that still has members or an
    address that a group still references.

    A real device keys a group by its rendered name; here a group is keyed
    by its structured `GroupName`. Within one batch (fixed prefix and
    description) the two agree, because `Commands.GroupLabelInjective`
    shows that two names render alike exactly when their tags are equal. */
module ScreenOsDevice {
  import opened Partition
  import opened Commands
  import opened Ssg

  datatype AddrKey = AddrKey(zone: string, ip: string)
  datatype GroupKey = GroupKey(zone: string, name: GroupName)
  datatype Member = Member(group: GroupKey, ip: string)

  /** The address objects, address groups and memberships of a device. */
  datatype Device = Device(addrs: set<AddrKey>, groups: set<GroupKey>, members: set<Member>)

  const Empty: Device := Device({}, {}, {})

  predicate GroupInUse(d: Device, gk: GroupKey) {
    exists m :: m in d.members && m.group == gk
  }

  predicate AddrInUse(d: Device, a: AddrKey) {
    exists m :: m in d.members && m.group.zone == a.zone && m.ip == a.ip
  }

  /** One command; `None` when the device rejects it. */
  function Step(d: Device, c: Cmd): Option<Device> {
    match c
    case SsgAddrDef(z, ip, _, _) =>
      var a := AddrKey(z, ip);
      if a in d.addrs then None else Some(d.(addrs := d.addrs + {a}))
    case SsgGroupAdd(z, gn, ip) =>
      var m := Member(GroupKey(z, gn), ip);
      if AddrKey(z, ip) !in d.addrs || m in d.members then None
      else Some(d.(groups := d.groups + {m.group}, members := d.members + {m}))
    case SsgGroupRemove(z, gn, ip) =>
      var m := Member(GroupKey(z, gn), ip);
      if m !in d.members then None else Some(d.(members := d.members - {m}))
    case SsgGroupDelete(z, gn) =>
      var gk := GroupKey(z, gn);
      if gk !in d.groups || GroupInUse(d, gk) then None else Some(d.(groups := d.groups - {gk}))
    case SsgAddrDelete(z, ip) =>
      var a := AddrKey(z, ip);
      if a !in d.addrs || AddrInUse(d, a) then None else Some(d.(addrs := d.addrs - {a}))
    case _ => None  // Junos commands mean nothing to ScreenOS
  }

  /** Run commands in order, stopping at the first rejected one. */
  function Run(d: Device, cs: seq<Cmd>): Option<Device>
    decreases |cs|
  {
    if cs == [] then Some(d)
    else match Step(d, cs[0])
      case None => None
      case Some(d') => Run(d', cs[1..])
  }

  function Then(r: Option<Device>, cs: seq<Cmd>): Option<Device> {
    match r
    case None => None
    case Some(d) => Run(d, cs)
  }

  lemma {:induction false} RunAppend(d: Device, a: seq<Cmd>, b: seq<Cmd>)
    ensures Run(d, a + b) == Then(Run(d, a), b)
    decreases |a|
  {
    if a == [] {
      assert a + b == b;
    } else {
      assert (a + b)[0] == a[0];
      assert (a + b)[1..] == a[1..] + b;
      match Step(d, a[0])
      case None =>
      case Some(d') => RunAppend(d', a[1..], b);
    }
  }

  /** What the SSG driver does with a command list: it sends every command
      and reads the reply only to print it, so a refused command leaves the
      configuration as it was and the next one is sent anyway. When nothing
      is refused, the session ends where `Run` ends. */
  function Send(d: Device, cs: seq<Cmd>): (r: Device)
    ensures Run(d, cs).Some? ==> r == Run(d, cs).value
    decreases |cs|
  {
    if cs == [] then d else Send(SendOne(d, cs[0]), cs[1..])
  }

  /** The configuration after the driver sends one command. */
  function SendOne(d: Device, c: Cmd): Device {
    match Step(d, c)
    case None => d
    case Some(d') => d'
  }

  lemma {:induction false} SendAppend(d: Device, a: seq<Cmd>, b: seq<Cmd>)
    ensures Send(d, a + b) == Send(Send(d, a), b)
    decreases |a|
  {
    if a == [] {
      assert a + b == b;
    } else {
      assert (a + b)[0] == a[0];
      assert (a + b)[1..] == a[1..] + b;
      SendAppend(SendOne(d, a[0]), a[1..], b);
    }
  }

  /** A session in which the device refuses every command leaves it as it
      was. */
  lemma {:induction false} SendAllRefused(d: Device, cs: seq<Cmd>)
    requires forall i :: 0 <= i < |cs| ==> Step(d, cs[i]).None?
    ensures Send(d, cs) == d
    decreases |cs|
  {
    if cs != [] {
      assert Step(d, cs[0]).None?;
      SendAllRefused(d, cs[1..]);
    }
  }

  predicate Distinct(ips: seq<string>) {
    forall i, j :: 0 <= i < j < |ips| ==> ips[i] != ips[j]
  }

  // ---- the states between phases --------------------------------------

  function AddrsOf(ips: seq<string>, z: string, lo: nat, hi: nat): set<AddrKey>
    requires lo <= hi <= |ips|
  {
    set i | lo <= i < hi :: AddrKey(z, ips[i])
  }

  /** The device key of the group the set generator puts item `i` into. */
  function KeyOf(ips: seq<string>, p: Params, i: nat): GroupKey
    requires p.groupLimit >= 1
  {
    GroupKey(p.zone, Group(p, ApplyTag(|ips|, p.groupLimit, i)))
  }

  function DelKeyOf(ips: seq<string>, p: Params, j: nat): GroupKey
    requires p.groupLimit >= 1
  {
    GroupKey(p.zone, Group(p, DeleteTag(|ips|, p.groupLimit, j)))
  }

  function GroupsOf(ips: seq<string>, p: Params, k: nat): set<GroupKey>
    requires p.groupLimit >= 1 && k <= |ips|
  {
    set i: nat | i < k :: KeyOf(ips, p, i)
  }

  function DeletedUpTo(ips: seq<string>, p: Params, k: nat): set<GroupKey>
    requires p.groupLimit >= 1
  {
    set j: nat | j < k :: DelKeyOf(ips, p, j)
  }

  function MembersOf(ips: seq<string>, p: Params, lo: nat, hi: nat): set<Member>
    requires p.groupLimit >= 1 && lo <= hi <= |ips|
  {
    set i | lo <= i < hi :: Member(KeyOf(ips, p, i), ips[i])
  }

  // ---- one lemma per phase --------------------------------------------

  lemma {:induction false} DefinePhase(ips: seq<string>, p: Params, k: nat)
    requires Distinct(ips) && k <= |ips|
    ensures Run(Device(AddrsOf(ips, p.zone, 0, k), {}, {}), AddressDefinitions(ips, p)[k..])
         == Some(Device(AddrsOf(ips, p.zone, 0, |ips|), {}, {}))
    decreases |ips| - k
  {
    var defs := AddressDefinitions(ips, p);
    if k < |ips| {
      var a := AddrKey(p.zone, ips[k]);
      assert a !in AddrsOf(ips, p.zone, 0, k);
      assert AddrsOf(ips, p.zone, 0, k) + {a} == AddrsOf(ips, p.zone, 0, k + 1);
      assert defs[k..][1..] == defs[k + 1..];
      DefinePhase(ips, p, k + 1);
    }
  }

  lemma {:induction false} JoinPhase(ips: seq<string>, p: Params, k: nat)
    requires p.groupLimit >= 1 && Distinct(ips) && k <= |ips|
    ensures var a := AddrsOf(ips, p.zone, 0, |ips|);
      Run(Device(a, GroupsOf(ips, p, k), MembersOf(ips, p, 0, k)), Memberships(ips, p, ApplyNumbered(|ips|, p.groupLimit))[k..])
      == Some(Device(a, GroupsOf(ips, p, |ips|), MembersOf(ips, p, 0, |ips|)))
    decreases |ips| - k
  {
    var mems := Memberships(ips, p, ApplyNumbered(|ips|, p.groupLimit));
    if k < |ips| {
      var m := Member(KeyOf(ips, p, k), ips[k]);
      assert AddrKey(p.zone, ips[k]) in AddrsOf(ips, p.zone, 0, |ips|);
      assert m !in MembersOf(ips, p, 0, k);
      assert MembersOf(ips, p, 0, k) + {m} == MembersOf(ips, p, 0, k + 1);
      assert GroupsOf(ips, p, k) + {m.group} == GroupsOf(ips, p, k + 1);
      assert mems[k..][1..] == mems[k + 1..];
      JoinPhase(ips, p, k + 1);
    }
  }

  lemma {:induction false} RemovePhase(ips: seq<string>, p: Params, k: nat)
    requires p.groupLimit >= 1 && Distinct(ips) && k <= |ips|
    ensures var a, gs := AddrsOf(ips, p.zone, 0, |ips|), GroupsOf(ips, p, |ips|);
      Run(Device(a, gs, MembersOf(ips, p, k, |ips|)), Removals(ips, p, ApplyNumbered(|ips|, p.groupLimit))[k..])
      == Some(Device(a, gs, {}))
    decreases |ips| - k
  {
    var rems := Removals(ips, p, ApplyNumbered(|ips|, p.groupLimit));
    if k < |ips| {
      var m := Member(KeyOf(ips, p, k), ips[k]);
      assert m in MembersOf(ips, p, k, |ips|);
      assert MembersOf(ips, p, k, |ips|) - {m} == MembersOf(ips, p, k + 1, |ips|);
      assert rems[k..][1..] == rems[k + 1..];
      RemovePhase(ips, p, k + 1);
    } else {
      assert MembersOf(ips, p, k, |ips|) == {};
    }
  }

  /** Every group deleted was filled by the set generator, each is deleted
      once, and together the deletions cover every filled group. */
  lemma DeletionKeys(ips: seq<string>, p: Params)
    requires p.groupLimit >= 1
    ensures forall j :: 0 <= j < GroupCount(|ips|, p.groupLimit) ==> DelKeyOf(ips, p, j) in GroupsOf(ips, p, |ips|)
    ensures forall j1, j2 :: 0 <= j1 < j2 < GroupCount(|ips|, p.groupLimit) ==> DelKeyOf(ips, p, j1) != DelKeyOf(ips, p, j2)
    ensures GroupsOf(ips, p, |ips|) <= DeletedUpTo(ips, p, GroupCount(|ips|, p.groupLimit))
  {
    var n, g := |ips|, p.groupLimit;
    var k := GroupCount(n, g);
    DeletionCoverage(n, g);
    var used := set i | 0 <= i < n :: ApplyTag(n, g, i);
    var deleted := set j | 0 <= j < k :: DeleteTag(n, g, j);
    forall j | 0 <= j < k
      ensures DelKeyOf(ips, p, j) in GroupsOf(ips, p, n)
    {
      assert DeleteTag(n, g, j) in deleted;
      var i :| 0 <= i < n && ApplyTag(n, g, i) == DeleteTag(n, g, j);
      assert DelKeyOf(ips, p, j) == KeyOf(ips, p, i);
    }
    forall gk | gk in GroupsOf(ips, p, n)
      ensures gk in DeletedUpTo(ips, p, k)
    {
      var i: nat :| i < n && gk == KeyOf(ips, p, i);
      assert ApplyTag(n, g, i) in used;
      var j :| 0 <= j < k && DeleteTag(n, g, j) == ApplyTag(n, g, i);
      assert gk == DelKeyOf(ips, p, j);
    }
  }

  lemma {:induction false} DeletePhase(ips: seq<string>, p: Params, k: nat)
    requires p.groupLimit >= 1 && k <= GroupCount(|ips|, p.groupLimit)
    ensures var a, gs := AddrsOf(ips, p.zone, 0, |ips|), GroupsOf(ips, p, |ips|);
      Run(Device(a, gs - DeletedUpTo(ips, p, k), {}), GroupDeletions(|ips|, p)[k..])
      == Some(Device(a, {}, {}))
    decreases GroupCount(|ips|, p.groupLimit) - k
  {
    var dels := GroupDeletions(|ips|, p);
    var gs := GroupsOf(ips, p, |ips|);
    DeletionKeys(ips, p);
    if k < |dels| {
      var gk := DelKeyOf(ips, p, k);
      assert dels[k] == SsgGroupDelete(p.zone, gk.name);
      assert gk !in DeletedUpTo(ips, p, k);
      assert gs - DeletedUpTo(ips, p, k) - {gk} == gs - DeletedUpTo(ips, p, k + 1);
      assert dels[k..][1..] == dels[k + 1..];
      DeletePhase(ips, p, k + 1);
    } else {
      assert gs - DeletedUpTo(ips, p, k) == {};
    }
  }

  lemma {:induction false} ForgetPhase(ips: seq<string>, p: Params, k: nat)
    requires Distinct(ips) && k <= |ips|
    ensures Run(Device(AddrsOf(ips, p.zone, k, |ips|), {}, {}), AddressDeletions(ips, p)[k..]) == Some(Empty)
    decreases |ips| - k
  {
    var adel := AddressDeletions(ips, p);
    if k < |ips| {
      var a := AddrKey(p.zone, ips[k]);
      assert a in AddrsOf(ips, p.zone, k, |ips|);
      assert AddrsOf(ips, p.zone, k, |ips|) - {a} == AddrsOf(ips, p.zone, k + 1, |ips|);
      assert adel[k..][1..] == adel[k + 1..];
      ForgetPhase(ips, p, k + 1);
    } else {
      assert AddrsOf(ips, p.zone, k, |ips|) == {};
    }
  }

  /** The device after the set commands: every address defined, every
      address a member of its group. */
  lemma ApplyState(ips: seq<string>, p: Params)
    requires p.groupLimit >= 1 && Distinct(ips)
    ensures Run(Empty, SsgSetCommands(ips, p))
      == Some(Device(AddrsOf(ips, p.zone, 0, |ips|), GroupsOf(ips, p, |ips|), MembersOf(ips, p, 0, |ips|)))
  {
    var defs, mems := AddressDefinitions(ips, p), Memberships(ips, p, ApplyNumbered(|ips|, p.groupLimit));
    assert AddrsOf(ips, p.zone, 0, 0) == {};
    assert GroupsOf(ips, p, 0) == {};
    assert MembersOf(ips, p, 0, 0) == {};
    DefinePhase(ips, p, 0);
    JoinPhase(ips, p, 0);
    assert defs[0..] == defs && mems[0..] == mems;
    RunAppend(Empty, defs, mems);
  }

  // ---- the round trip -------------------------------------------------

  /** On an empty device, the set commands followed by the corrected unset
      commands are all accepted and leave the device empty again, for every
      list of distinct addresses and every group limit. */
  lemma SsgRoundTripFixed(ips: seq<string>, p: Params)
    requires p.groupLimit >= 1 && Distinct(ips)
    ensures Run(Empty, SsgSetCommands(ips, p) + SsgUnsetCommandsFixed(ips, p)) == Some(Empty)
  {
    var n := |ips|;
    var rems := Removals(ips, p, ApplyNumbered(n, p.groupLimit));
    var dels, adel := GroupDeletions(n, p), AddressDeletions(ips, p);
    var a := AddrsOf(ips, p.zone, 0, n);
    ApplyState(ips, p);
    RunAppend(Empty, SsgSetCommands(ips, p), SsgUnsetCommandsFixed(ips, p));
    var applied := Device(a, GroupsOf(ips, p, n), MembersOf(ips, p, 0, n));
    RemovePhase(ips, p, 0);
    assert rems[0..] == rems;
    assert DeletedUpTo(ips, p, 0) == {};
    assert GroupsOf(ips, p, n) - DeletedUpTo(ips, p, 0) == GroupsOf(ips, p, n);
    DeletePhase(ips, p, 0);
    assert dels[0..] == dels;
    ForgetPhase(ips, p, 0);
    assert adel[0..] == adel;
    RunAppend(applied, rems, dels);
    RunAppend(applied, rems + dels, adel);
    assert Run(applied, rems) == Some(Device(a, GroupsOf(ips, p, n), {}));
    assert Run(applied, rems + dels) == Some(Device(a, {}, {}));
    assert SsgUnsetCommandsFixed(ips, p) == rems + dels + adel;
  }

  /** The unset commands as written undo the set commands whenever the list
      does not hold exactly `g` addresses. */
  lemma SsgRoundTrip(ips: seq<string>, p: Params)
    requires p.groupLimit >= 1 && Distinct(ips) && |ips| != p.groupLimit
    ensures Run(Empty, SsgSetCommands(ips, p) + SsgUnsetCommands(ips, p)) == Some(Empty)
  {
    SsgRevertNamesAgree(ips, p);
    SsgRoundTripFixed(ips, p);
  }

  /** A definition repeated at position `j` is refused once the run gets
      there, whatever it defined before. */
  lemma {:induction false} DefineRefusesRepeat(ips: seq<string>, p: Params, i: nat, j: nat, k: nat)
    requires i < j < |ips| && ips[i] == ips[j] && k <= j
    ensures Run(Device(AddrsOf(ips, p.zone, 0, k), {}, {}), AddressDefinitions(ips, p)[k..]) == None
    decreases j - k
  {
    var defs := AddressDefinitions(ips, p);
    var d := Device(AddrsOf(ips, p.zone, 0, k), {}, {});
    assert defs[k..][0] == defs[k] == SsgAddrDef(p.zone, ips[k], p.netmask, p.description);
    if k == j {
      assert AddrKey(p.zone, ips[i]) in d.addrs;
    } else if Step(d, defs[k]).Some? {
      assert AddrsOf(ips, p.zone, 0, k) + {AddrKey(p.zone, ips[k])} == AddrsOf(ips, p.zone, 0, k + 1);
      assert defs[k..][1..] == defs[k + 1..];
      DefineRefusesRepeat(ips, p, i, j, k + 1);
    }
  }

  /** `Run` accepts the set list from an empty device only when the
      addresses are distinct: a repeated address is refused at its second
      definition. */
  lemma SetRefusesRepeat(ips: seq<string>, p: Params)
    requires p.groupLimit >= 1 && !Distinct(ips)
    ensures Run(Empty, SsgSetCommands(ips, p)) == None
  {
    var defs, mems := AddressDefinitions(ips, p), Memberships(ips, p, ApplyNumbered(|ips|, p.groupLimit));
    var i, j :| 0 <= i < j < |ips| && ips[i] == ips[j];
    assert AddrsOf(ips, p.zone, 0, 0) == {};
    DefineRefusesRepeat(ips, p, i, j, 0);
    assert defs[0..] == defs;
    RunAppend(Empty, defs, mems);
  }

  /** With exactly `g` addresses the device rejects the unset commands as
      written: the first removal names group `_1`, of which the address is
      not a member. A repeated address makes the run stop even earlier, at
      its second definition. */
  lemma SsgRoundTripFailsAtLimit(ips: seq<string>, p: Params)
    requires p.groupLimit >= 1 && |ips| == p.groupLimit
    ensures Run(Empty, SsgSetCommands(ips, p) + SsgUnsetCommands(ips, p)) == None
  {
    var n := |ips|;
    var unset := SsgUnsetCommands(ips, p);
    RunAppend(Empty, SsgSetCommands(ips, p), unset);
    if !Distinct(ips) {
      SetRefusesRepeat(ips, p);
    } else {
      ApplyState(ips, p);
      SsgRevertNamesDivergeAtLimit(ips, p);
      var applied := Device(AddrsOf(ips, p.zone, 0, n), GroupsOf(ips, p, n), MembersOf(ips, p, 0, n));
      var m := Member(GroupKey(p.zone, Group(p, Numbered(1))), ips[0]);
      forall i | 0 <= i < n
        ensures KeyOf(ips, p, i) == GroupKey(p.zone, Group(p, Unnumbered))
      {
        TagsDivergeAtLimit(n, p.groupLimit, i);
      }
      assert m !in applied.members;
      assert Step(applied, unset[0]) == None;
    }
  }

  // ---- what the driver's session does ---------------------------------
  // A repeated address makes the device refuse its repeated definition,
  // membership, removal and deletion. Each refusal leaves the state that
  // the phase invariant already describes, so none of these lemmas needs
  // the addresses to be distinct.

  lemma {:induction false} SendDefinePhase(ips: seq<string>, p: Params, k: nat)
    requires k <= |ips|
    ensures Send(Device(AddrsOf(ips, p.zone, 0, k), {}, {}), AddressDefinitions(ips, p)[k..])
         == Device(AddrsOf(ips, p.zone, 0, |ips|), {}, {})
    decreases |ips| - k
  {
    var defs := AddressDefinitions(ips, p);
    if k < |ips| {
      var a := AddrKey(p.zone, ips[k]);
      var d := Device(AddrsOf(ips, p.zone, 0, k), {}, {});
      assert AddrsOf(ips, p.zone, 0, k) + {a} == AddrsOf(ips, p.zone, 0, k + 1);
      assert defs[k..][0] == SsgAddrDef(p.zone, ips[k], p.netmask, p.description);
      assert SendOne(d, defs[k..][0]) == Device(AddrsOf(ips, p.zone, 0, k + 1), {}, {}) by {
        if a in d.addrs {
          assert AddrsOf(ips, p.zone, 0, k) == AddrsOf(ips, p.zone, 0, k + 1);
        }
      }
      assert defs[k..][1..] == defs[k + 1..];
      SendDefinePhase(ips, p, k + 1);
      assert Send(d, defs[k..]) == Send(Device(AddrsOf(ips, p.zone, 0, k + 1), {}, {}), defs[k + 1..]);
    } else {
      assert defs[k..] == [];
    }
  }

  lemma {:induction false} SendJoinPhase(ips: seq<string>, p: Params, k: nat)
    requires p.groupLimit >= 1 && k <= |ips|
    ensures var a := AddrsOf(ips, p.zone, 0, |ips|);
      Send(Device(a, GroupsOf(ips, p, k), MembersOf(ips, p, 0, k)), Memberships(ips, p, ApplyNumbered(|ips|, p.groupLimit))[k..])
      == Device(a, GroupsOf(ips, p, |ips|), MembersOf(ips, p, 0, |ips|))
    decreases |ips| - k
  {
    var mems := Memberships(ips, p, ApplyNumbered(|ips|, p.groupLimit));
    if k < |ips| {
      var m := Member(KeyOf(ips, p, k), ips[k]);
      assert AddrKey(p.zone, ips[k]) in AddrsOf(ips, p.zone, 0, |ips|);
      assert MembersOf(ips, p, 0, k) + {m} == MembersOf(ips, p, 0, k + 1);
      assert GroupsOf(ips, p, k) + {m.group} == GroupsOf(ips, p, k + 1);
      if m in MembersOf(ips, p, 0, k) {
        var i :| 0 <= i < k && Member(KeyOf(ips, p, i), ips[i]) == m;
        assert m.group in GroupsOf(ips, p, k);
      }
      var a := AddrsOf(ips, p.zone, 0, |ips|);
      assert mems[k..][0] == SsgGroupAdd(p.zone, m.group.name, ips[k]);
      assert SendOne(Device(a, GroupsOf(ips, p, k), MembersOf(ips, p, 0, k)), mems[k..][0])
          == Device(a, GroupsOf(ips, p, k + 1), MembersOf(ips, p, 0, k + 1));
      assert mems[k..][1..] == mems[k + 1..];
      SendJoinPhase(ips, p, k + 1);
      assert Send(Device(a, GroupsOf(ips, p, k), MembersOf(ips, p, 0, k)), mems[k..])
          == Send(Device(a, GroupsOf(ips, p, k + 1), MembersOf(ips, p, 0, k + 1)), mems[k + 1..]);
    } else {
      assert mems[k..] == [];
    }
  }

  /** One removal, sent to a device that still holds the memberships from
      item `k` on, leaves it holding those from item `k + 1` on. */
  lemma RemoveStep(ips: seq<string>, p: Params, k: nat)
    requires p.groupLimit >= 1 && k < |ips|
    ensures var a, gs, all := AddrsOf(ips, p.zone, 0, |ips|), GroupsOf(ips, p, |ips|), MembersOf(ips, p, 0, |ips|);
      SendOne(Device(a, gs, all - MembersOf(ips, p, 0, k)), Removals(ips, p, ApplyNumbered(|ips|, p.groupLimit))[k])
      == Device(a, gs, all - MembersOf(ips, p, 0, k + 1))
  {
    var all := MembersOf(ips, p, 0, |ips|);
    var m := Member(KeyOf(ips, p, k), ips[k]);
    assert m in all;
    assert MembersOf(ips, p, 0, k) + {m} == MembersOf(ips, p, 0, k + 1);
    assert all - MembersOf(ips, p, 0, k) - {m} == all - MembersOf(ips, p, 0, k + 1);
    if m !in all - MembersOf(ips, p, 0, k) {
      assert MembersOf(ips, p, 0, k) == MembersOf(ips, p, 0, k + 1);
    }
  }

  lemma {:induction false} SendRemovePhase(ips: seq<string>, p: Params, k: nat)
    requires p.groupLimit >= 1 && k <= |ips|
    ensures var a, gs, all := AddrsOf(ips, p.zone, 0, |ips|), GroupsOf(ips, p, |ips|), MembersOf(ips, p, 0, |ips|);
      Send(Device(a, gs, all - MembersOf(ips, p, 0, k)), Removals(ips, p, ApplyNumbered(|ips|, p.groupLimit))[k..])
      == Device(a, gs, {})
    decreases |ips| - k
  {
    var a, gs, all := AddrsOf(ips, p.zone, 0, |ips|), GroupsOf(ips, p, |ips|), MembersOf(ips, p, 0, |ips|);
    var rems := Removals(ips, p, ApplyNumbered(|ips|, p.groupLimit));
    if k < |ips| {
      RemoveStep(ips, p, k);
      assert rems[k..][0] == rems[k];
      assert rems[k..][1..] == rems[k + 1..];
      SendRemovePhase(ips, p, k + 1);
    } else {
      assert all - MembersOf(ips, p, 0, k) == {};
      assert rems[k..] == [];
    }
  }

  lemma {:induction false} SendForgetPhase(ips: seq<string>, p: Params, k: nat)
    requires k <= |ips|
    ensures Send(Device(AddrsOf(ips, p.zone, 0, |ips|) - AddrsOf(ips, p.zone, 0, k), {}, {}), AddressDeletions(ips, p)[k..])
         == Empty
    decreases |ips| - k
  {
    var all := AddrsOf(ips, p.zone, 0, |ips|);
    var adel := AddressDeletions(ips, p);
    if k < |ips| {
      var a := AddrKey(p.zone, ips[k]);
      assert a in all;
      assert AddrsOf(ips, p.zone, 0, k) + {a} == AddrsOf(ips, p.zone, 0, k + 1);
      assert all - AddrsOf(ips, p.zone, 0, k) - {a} == all - AddrsOf(ips, p.zone, 0, k + 1);
      assert adel[k..][0] == SsgAddrDelete(p.zone, ips[k]);
      assert SendOne(Device(all - AddrsOf(ips, p.zone, 0, k), {}, {}), adel[k..][0])
          == Device(all - AddrsOf(ips, p.zone, 0, k + 1), {}, {}) by {
        if a !in all - AddrsOf(ips, p.zone, 0, k) {
          assert AddrsOf(ips, p.zone, 0, k) == AddrsOf(ips, p.zone, 0, k + 1);
        }
      }
      assert adel[k..][1..] == adel[k + 1..];
      SendForgetPhase(ips, p, k + 1);
      assert Send(Device(all - AddrsOf(ips, p.zone, 0, k), {}, {}), adel[k..])
          == Send(Device(all - AddrsOf(ips, p.zone, 0, k + 1), {}, {}), adel[k + 1..]);
    } else {
      assert all - AddrsOf(ips, p.zone, 0, k) == {};
      assert adel[k..] == [];
    }
  }

  /** The device after the driver has sent the set commands, for any
      address list: every address defined, every address a member of its
      group. A repeated address adds nothing a second time. */
  lemma SendApplyState(ips: seq<string>, p: Params)
    requires p.groupLimit >= 1
    ensures Send(Empty, SsgSetCommands(ips, p))
      == Device(AddrsOf(ips, p.zone, 0, |ips|), GroupsOf(ips, p, |ips|), MembersOf(ips, p, 0, |ips|))
  {
    var defs, mems := AddressDefinitions(ips, p), Memberships(ips, p, ApplyNumbered(|ips|, p.groupLimit));
    assert AddrsOf(ips, p.zone, 0, 0) == {};
    assert GroupsOf(ips, p, 0) == {};
    assert MembersOf(ips, p, 0, 0) == {};
    SendDefinePhase(ips, p, 0);
    SendJoinPhase(ips, p, 0);
    assert defs[0..] == defs && mems[0..] == mems;
    SendAppend(Empty, defs, mems);
  }

  /** Sending the set commands and then the corrected unset commands in one
      session leaves an empty device, as does the unset list as written
      whenever the list does not hold exactly `g` addresses. This holds for
      every address list, repeated addresses included. */
  lemma SsgSessionRoundTrip(ips: seq<string>, p: Params)
    requires p.groupLimit >= 1
    ensures Send(Empty, SsgSetCommands(ips, p) + SsgUnsetCommandsFixed(ips, p)) == Empty
    ensures |ips| != p.groupLimit ==> Send(Empty, SsgSetCommands(ips, p) + SsgUnsetCommands(ips, p)) == Empty
  {
    var n := |ips|;
    var rems := Removals(ips, p, ApplyNumbered(n, p.groupLimit));
    var dels, adel := GroupDeletions(n, p), AddressDeletions(ips, p);
    var a, gs, all := AddrsOf(ips, p.zone, 0, n), GroupsOf(ips, p, n), MembersOf(ips, p, 0, n);
    var applied := Device(a, gs, all);
    SendApplyState(ips, p);
    SendAppend(Empty, SsgSetCommands(ips, p), SsgUnsetCommandsFixed(ips, p));
    assert SsgUnsetCommandsFixed(ips, p) == rems + dels + adel;
    SendAppend(applied, rems + dels, adel);
    SendAppend(applied, rems, dels);
    assert MembersOf(ips, p, 0, 0) == {} && all - {} == all;
    SendRemovePhase(ips, p, 0);
    assert rems[0..] == rems;
    assert Send(applied, rems) == Device(a, gs, {});
    assert DeletedUpTo(ips, p, 0) == {} && gs - {} == gs;
    DeletePhase(ips, p, 0);
    assert dels[0..] == dels;
    assert Send(applied, rems + dels) == Device(a, {}, {});
    assert AddrsOf(ips, p.zone, 0, 0) == {} && a - {} == a;
    SendForgetPhase(ips, p, 0);
    assert adel[0..] == adel;
    if n != p.groupLimit {
      SsgRevertNamesAgree(ips, p);
    }
  }

  /** The configuration the set commands leave. */
  function Applied(ips: seq<string>, p: Params): Device
    requires p.groupLimit >= 1
  {
    Device(AddrsOf(ips, p.zone, 0, |ips|), GroupsOf(ips, p, |ips|), MembersOf(ips, p, 0, |ips|))
  }

  /** With exactly `g` addresses every item sits in the unsuffixed group. */
  lemma HomeAtLimit(ips: seq<string>, p: Params)
    requires p.groupLimit >= 1 && |ips| == p.groupLimit
    ensures forall i :: 0 <= i < |ips| ==> KeyOf(ips, p, i) == GroupKey(p.zone, Group(p, Unnumbered))
  {
    forall i | 0 <= i < |ips|
      ensures KeyOf(ips, p, i) == GroupKey(p.zone, Group(p, Unnumbered))
    {
      TagsDivergeAtLimit(|ips|, p.groupLimit, i);
    }
  }

  /** With exactly `g` addresses the removals as written name group `_1`,
      of which no address is a member. */
  lemma RemovalsRefusedAtLimit(ips: seq<string>, p: Params)
    requires p.groupLimit >= 1 && |ips| == p.groupLimit
    ensures forall i :: 0 <= i < |ips| ==> Step(Applied(ips, p), SsgUnsetCommands(ips, p)[i]).None?
  {
    HomeAtLimit(ips, p);
    SsgRevertNamesDivergeAtLimit(ips, p);
    forall i | 0 <= i < |ips|
      ensures Step(Applied(ips, p), SsgUnsetCommands(ips, p)[i]).None?
    {
      assert Member(GroupKey(p.zone, Group(p, Numbered(1))), ips[i]) !in Applied(ips, p).members;
    }
  }

  /** With exactly `g` addresses the one group deletion names the
      unsuffixed group, which still holds every address. */
  lemma GroupDeletionRefusedAtLimit(ips: seq<string>, p: Params)
    requires p.groupLimit >= 1 && |ips| == p.groupLimit
    ensures Step(Applied(ips, p), SsgUnsetCommands(ips, p)[|ips|]).None?
  {
    HomeAtLimit(ips, p);
    SsgRevertNamesDivergeAtLimit(ips, p);
    assert Member(KeyOf(ips, p, 0), ips[0]) in Applied(ips, p).members;
    assert GroupInUse(Applied(ips, p), GroupKey(p.zone, Group(p, Unnumbered)));
  }

  /** With exactly `g` addresses every address deletion names an address
      a group still references. */
  lemma AddressDeletionsRefusedAtLimit(ips: seq<string>, p: Params)
    requires p.groupLimit >= 1 && |ips| == p.groupLimit
    ensures forall i :: |ips| < i < |SsgUnsetCommands(ips, p)| ==> Step(Applied(ips, p), SsgUnsetCommands(ips, p)[i]).None?
  {
    var n, unset, applied := |ips|, SsgUnsetCommands(ips, p), Applied(ips, p);
    UnsetLayout(ips, p, RevertNumbered(n, p.groupLimit));
    GroupCountIsCeiling(n, p.groupLimit);
    forall i | n < i < |unset|
      ensures Step(applied, unset[i]).None?
    {
      var j := i - n - 1;
      assert unset[i] == SsgAddrDelete(p.zone, ips[j]);
      assert Member(KeyOf(ips, p, j), ips[j]) in applied.members;
      assert AddrInUse(applied, AddrKey(p.zone, ips[j]));
    }
  }

  /** With exactly `g` addresses the device, configured as the set
      commands leave it, refuses every unset command as written. */
  lemma RefusedAtLimit(ips: seq<string>, p: Params)
    requires p.groupLimit >= 1 && |ips| == p.groupLimit
    ensures forall i :: 0 <= i < |SsgUnsetCommands(ips, p)| ==> Step(Applied(ips, p), SsgUnsetCommands(ips, p)[i]).None?
  {
    RemovalsRefusedAtLimit(ips, p);
    GroupDeletionRefusedAtLimit(ips, p);
    AddressDeletionsRefusedAtLimit(ips, p);
  }

  /** With exactly `g` addresses the driver sends all `2n + 1` unset
      commands as written, the device refuses every one, and the
      configuration stays exactly as the set commands left it, repeated
      addresses or not. */
  lemma SsgSessionUnchangedAtLimit(ips: seq<string>, p: Params)
    requires p.groupLimit >= 1 && |ips| == p.groupLimit
    ensures var applied := Device(AddrsOf(ips, p.zone, 0, |ips|), GroupsOf(ips, p, |ips|), MembersOf(ips, p, 0, |ips|));
      && Send(Empty, SsgSetCommands(ips, p) + SsgUnsetCommands(ips, p)) == applied
      && applied != Empty
      && (forall i :: 0 <= i < |SsgUnsetCommands(ips, p)| ==> Step(applied, SsgUnsetCommands(ips, p)[i]).None?)
  {
    var n := |ips|;
    var applyCmds, unset := SsgSetCommands(ips, p), SsgUnsetCommands(ips, p);
    var applied := Applied(ips, p);
    SendApplyState(ips, p);
    SendAppend(Empty, applyCmds, unset);
    RefusedAtLimit(ips, p);
    SendAllRefused(applied, unset);
    assert AddrKey(p.zone, ips[0]) in applied.addrs;
  }
}
