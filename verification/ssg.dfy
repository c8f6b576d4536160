/** ScreenOS (SSG) command generation: `gen_ssg_set_commands` and
    `gen_ssg_unset_commands`. */
module Ssg {
  import opened Partition
  import opened Commands

  /** One `set address` per IP, in input order. */
  function AddressDefinitions(ips: seq<string>, p: Params): seq<Cmd> {
    seq(|ips|, i requires 0 <= i < |ips| => SsgAddrDef(p.zone, ips[i], p.netmask, p.description))
  }

  /** One `set group address ... add` per IP, in input order. */
  function Memberships(ips: seq<string>, p: Params, numbered: bool): seq<Cmd>
    requires p.groupLimit >= 1
  {
    seq(|ips|, i requires 0 <= i < |ips| => SsgGroupAdd(p.zone, Group(p, Tag(numbered, i, p.groupLimit)), ips[i]))
  }

  /** One `unset group address ... remove` per IP, in input order. */
  function Removals(ips: seq<string>, p: Params, numbered: bool): seq<Cmd>
    requires p.groupLimit >= 1
  {
    seq(|ips|, i requires 0 <= i < |ips| => SsgGroupRemove(p.zone, Group(p, Tag(numbered, i, p.groupLimit)), ips[i]))
  }

  /** One `unset group address` per group. */
  function GroupDeletions(n: nat, p: Params): seq<Cmd>
    requires p.groupLimit >= 1
  {
    seq(GroupCount(n, p.groupLimit), j requires 0 <= j => SsgGroupDelete(p.zone, Group(p, DeleteTag(n, p.groupLimit, j))))
  }

  /** One `unset address` per IP, in input order. */
  function AddressDeletions(ips: seq<string>, p: Params): seq<Cmd> {
    seq(|ips|, i requires 0 <= i < |ips| => SsgAddrDelete(p.zone, ips[i]))
  }

  /** `gen_ssg_set_commands`: only SSG apply commands, in the batch's zone,
      walking the address list twice in input order. */
  function SsgSetCommands(ips: seq<string>, p: Params): (r: seq<Cmd>)
    requires p.groupLimit >= 1
    ensures |r| == 2 * |ips|
    ensures forall j :: 0 <= j < |r| ==>
      && (r[j].SsgAddrDef? || r[j].SsgGroupAdd?)
      && r[j].zone == p.zone
      && r[j].ip == (if j < |ips| then ips[j] else ips[j - |ips|])
  {
    AddressDefinitions(ips, p) + Memberships(ips, p, ApplyNumbered(|ips|, p.groupLimit))
  }

  /** `gen_ssg_unset_commands` as written: the removals decide on a suffix
      with `len / g`, unlike the set generator's `(len - 1) / g`. */
  function SsgUnsetCommands(ips: seq<string>, p: Params): (r: seq<Cmd>)
    requires p.groupLimit >= 1
    ensures |r| == 2 * |ips| + GroupCount(|ips|, p.groupLimit)
    ensures forall j :: 0 <= j < |r| ==>
      (r[j].SsgGroupRemove? || r[j].SsgGroupDelete? || r[j].SsgAddrDelete?) && r[j].zone == p.zone
    ensures PhasesOrdered(r)
  {
    Removals(ips, p, RevertNumbered(|ips|, p.groupLimit)) + GroupDeletions(|ips|, p) + AddressDeletions(ips, p)
  }

  /** `gen_ssg_unset_commands` with the removals naming groups exactly as
      the set generator does. */
  function SsgUnsetCommandsFixed(ips: seq<string>, p: Params): seq<Cmd>
    requires p.groupLimit >= 1
  {
    Removals(ips, p, ApplyNumbered(|ips|, p.groupLimit)) + GroupDeletions(|ips|, p) + AddressDeletions(ips, p)
  }

  // ---- the set generator ----------------------------------------------

  /** The set output is `n` address definitions in input order followed by
      `n` memberships in input order; item `i` joins group `i / g + 1`, and
      names carry that number exactly when the list exceeds one group. */
  lemma SsgSetLayout(ips: seq<string>, p: Params)
    requires p.groupLimit >= 1
    ensures |SsgSetCommands(ips, p)| == 2 * |ips|
    ensures forall i :: 0 <= i < |ips| ==>
      SsgSetCommands(ips, p)[i] == SsgAddrDef(p.zone, ips[i], p.netmask, p.description)
    ensures forall i :: 0 <= i < |ips| ==>
      SsgSetCommands(ips, p)[|ips| + i] ==
        SsgGroupAdd(p.zone, Group(p, if |ips| > p.groupLimit then Numbered(GroupOf(i, p.groupLimit)) else Unnumbered), ips[i])
  {
    ApplyNumberedIff(|ips|, p.groupLimit);
  }

  // ---- the unset generator --------------------------------------------

  /** The command kinds of the unset output, in the order the device needs
      them: detach members, delete the emptied groups, delete addresses. */
  function Phase(c: Cmd): nat {
    if c.SsgGroupRemove? then 0 else if c.SsgGroupDelete? then 1 else 2
  }

  predicate PhasesOrdered(cs: seq<Cmd>) {
    forall i, j :: 0 <= i < j < |cs| ==> Phase(cs[i]) <= Phase(cs[j])
  }

  /** Layout of an unset output built with a given suffix decision. */
  lemma UnsetLayout(ips: seq<string>, p: Params, numbered: bool)
    requires p.groupLimit >= 1
    ensures var r := Removals(ips, p, numbered) + GroupDeletions(|ips|, p) + AddressDeletions(ips, p);
      var n, k := |ips|, GroupCount(|ips|, p.groupLimit);
      && |r| == 2 * n + k
      && (forall i :: 0 <= i < n ==>
            r[i] == SsgGroupRemove(p.zone, Group(p, Tag(numbered, i, p.groupLimit)), ips[i]))
      && (forall j :: 0 <= j < k ==> r[n + j] == SsgGroupDelete(p.zone, Group(p, DeleteTag(n, p.groupLimit, j))))
      && (forall i :: 0 <= i < n ==> r[n + k + i] == SsgAddrDelete(p.zone, ips[i]))
      && PhasesOrdered(r)
  {
    var rem, del, adr := Removals(ips, p, numbered), GroupDeletions(|ips|, p), AddressDeletions(ips, p);
    var r := rem + del + adr;
    forall i | 0 <= i < |r|
      ensures Phase(r[i]) == if i < |rem| then 0 else if i < |rem| + |del| then 1 else 2
    {
      if i < |rem| {
        assert r[i] == rem[i];
      } else if i < |rem| + |del| {
        assert r[i] == del[i - |rem|];
      } else {
        assert r[i] == adr[i - |rem| - |del|];
      }
    }
  }

  /** The unset output as written: `n` removals in input order, then one
      deletion per group, then `n` address deletions in input order; the
      removals carry a suffix as soon as the list fills one group. Nothing
      of a later phase precedes anything of an earlier one, and an empty
      list gives an empty output. */
  lemma SsgUnsetLayout(ips: seq<string>, p: Params)
    requires p.groupLimit >= 1
    ensures var r, n, g := SsgUnsetCommands(ips, p), |ips|, p.groupLimit;
      var k := GroupCount(n, g);
      && |r| == 2 * n + k
      && (n == 0 <==> r == [])
      && (forall i :: 0 <= i < n ==>
            r[i] == SsgGroupRemove(p.zone, Group(p, if n >= g then Numbered(GroupOf(i, g)) else Unnumbered), ips[i]))
      && (forall j :: n <= j < n + k ==> r[j].SsgGroupDelete?)
      && r[n..n + k] == GroupDeletions(n, p)
      && (forall i :: 0 <= i < n ==> r[n + k + i] == SsgAddrDelete(p.zone, ips[i]))
      && PhasesOrdered(r)
  {
    var rem, del := Removals(ips, p, RevertNumbered(|ips|, p.groupLimit)), GroupDeletions(|ips|, p);
    assert (rem + del + AddressDeletions(ips, p))[|rem|..|rem| + |del|] == del;
    UnsetLayout(ips, p, RevertNumbered(|ips|, p.groupLimit));
    RevertNumberedIff(|ips|, p.groupLimit);
    GroupCountIsCeiling(|ips|, p.groupLimit);
  }

  /** Group deletions: none for an empty list, a single unsuffixed one when
      the list fits in one group, otherwise `_1 .. _k` in increasing order
      with `k` the ceiling of `n / g`. */
  lemma SsgGroupDeletions(ips: seq<string>, p: Params)
    requires p.groupLimit >= 1
    ensures var n, g := |ips|, p.groupLimit;
      var d := GroupDeletions(n, p);
      && (n == 0 ==> d == [])
      && (1 <= n <= g ==> d == [SsgGroupDelete(p.zone, Group(p, Unnumbered))])
      && (n > g ==> (|d| - 1) * g < n <= |d| * g)
      && (n > g ==> forall j :: 0 <= j < |d| ==> d[j] == SsgGroupDelete(p.zone, Group(p, Numbered(j + 1))))
  {
    GroupCountIsCeiling(|ips|, p.groupLimit);
  }

  lemma AddedGroups(ips: seq<string>, p: Params)
    requires p.groupLimit >= 1
    ensures (set c | c in SsgSetCommands(ips, p) && c.SsgGroupAdd? :: c.group)
         == (set i | 0 <= i < |ips| :: Group(p, ApplyTag(|ips|, p.groupLimit, i)))
  {
    var n, g := |ips|, p.groupLimit;
    var defs, mems := AddressDefinitions(ips, p), Memberships(ips, p, ApplyNumbered(n, g));
    var lhs := set c: Cmd | c in defs + mems && c.SsgGroupAdd? :: c.group;
    var rhs := set i | 0 <= i < n :: Group(p, ApplyTag(n, g, i));
    forall gn | gn in lhs
      ensures gn in rhs
    {
      var c: Cmd :| c in defs + mems && c.SsgGroupAdd? && c.group == gn;
      assert c !in defs;
      var i :| 0 <= i < n && mems[i] == c;
      assert gn == Group(p, ApplyTag(n, g, i));
    }
    forall gn | gn in rhs
      ensures gn in lhs
    {
      var i :| 0 <= i < n && gn == Group(p, ApplyTag(n, g, i));
      assert mems[i] in defs + mems;
    }
  }

  lemma DeletedGroups(ips: seq<string>, p: Params)
    requires p.groupLimit >= 1
    ensures (set c | c in SsgUnsetCommands(ips, p) && c.SsgGroupDelete? :: c.group)
         == (set j | 0 <= j < GroupCount(|ips|, p.groupLimit) :: Group(p, DeleteTag(|ips|, p.groupLimit, j)))
  {
    var n, g := |ips|, p.groupLimit;
    var k := GroupCount(n, g);
    var rem, del, adr := Removals(ips, p, RevertNumbered(n, g)), GroupDeletions(n, p), AddressDeletions(ips, p);
    var lhs := set c: Cmd | c in rem + del + adr && c.SsgGroupDelete? :: c.group;
    var rhs := set j | 0 <= j < k :: Group(p, DeleteTag(n, g, j));
    forall gn | gn in lhs
      ensures gn in rhs
    {
      var c: Cmd :| c in rem + del + adr && c.SsgGroupDelete? && c.group == gn;
      assert c !in rem && c !in adr;
      var j :| 0 <= j < k && del[j] == c;
      assert gn == Group(p, DeleteTag(n, g, j));
    }
    forall gn | gn in rhs
      ensures gn in lhs
    {
      var j :| 0 <= j < k && gn == Group(p, DeleteTag(n, g, j));
      assert del[j] in rem + del + adr;
    }
  }

  /** The group names the unset generator deletes are exactly the names the
      set generator's memberships use (none at all for an empty list). */
  lemma SsgDeletionCoverage(ips: seq<string>, p: Params)
    requires p.groupLimit >= 1
    ensures (set c | c in SsgSetCommands(ips, p) && c.SsgGroupAdd? :: c.group)
         == (set c | c in SsgUnsetCommands(ips, p) && c.SsgGroupDelete? :: c.group)
  {
    var n, g := |ips|, p.groupLimit;
    var k := GroupCount(n, g);
    AddedGroups(ips, p);
    DeletedGroups(ips, p);
    DeletionCoverage(n, g);
    var usedTags := set i | 0 <= i < n :: ApplyTag(n, g, i);
    var deletedTags := set j | 0 <= j < k :: DeleteTag(n, g, j);
    var used := set i | 0 <= i < n :: Group(p, ApplyTag(n, g, i));
    var deleted := set j | 0 <= j < k :: Group(p, DeleteTag(n, g, j));
    forall gn | gn in used
      ensures gn in deleted
    {
      var i :| 0 <= i < n && gn == Group(p, ApplyTag(n, g, i));
      assert ApplyTag(n, g, i) in usedTags;
      var j :| 0 <= j < k && DeleteTag(n, g, j) == ApplyTag(n, g, i);
    }
    forall gn | gn in deleted
      ensures gn in used
    {
      var j :| 0 <= j < k && gn == Group(p, DeleteTag(n, g, j));
      assert DeleteTag(n, g, j) in deletedTags;
      var i :| 0 <= i < n && ApplyTag(n, g, i) == DeleteTag(n, g, j);
    }
  }

  // ---- apply and revert naming ----------------------------------------

  /** Unless the list holds exactly `g` addresses, the as-written unset
      output is the corrected one: every removal names the group the set
      generator put that address into. */
  lemma SsgRevertNamesAgree(ips: seq<string>, p: Params)
    requires p.groupLimit >= 1 && |ips| != p.groupLimit
    ensures SsgUnsetCommands(ips, p) == SsgUnsetCommandsFixed(ips, p)
    ensures forall i :: 0 <= i < |ips| ==> SsgUnsetCommands(ips, p)[i].group == SsgSetCommands(ips, p)[|ips| + i].group
  {
    ApplyNumberedIff(|ips|, p.groupLimit);
    RevertNumberedIff(|ips|, p.groupLimit);
    assert ApplyNumbered(|ips|, p.groupLimit) == RevertNumbered(|ips|, p.groupLimit);
    assert SsgUnsetCommands(ips, p) == SsgUnsetCommandsFixed(ips, p);
    UnsetLayout(ips, p, ApplyNumbered(|ips|, p.groupLimit));
    SsgSetLayout(ips, p);
  }

  /** With exactly `g` addresses the set generator fills the unsuffixed
      group and the unset generator deletes it, but every removal names
      group `_1`, which was never created. */
  lemma SsgRevertNamesDivergeAtLimit(ips: seq<string>, p: Params)
    requires p.groupLimit >= 1 && |ips| == p.groupLimit
    ensures forall i :: 0 <= i < |ips| ==>
      SsgSetCommands(ips, p)[|ips| + i] == SsgGroupAdd(p.zone, Group(p, Unnumbered), ips[i])
    ensures forall i :: 0 <= i < |ips| ==>
      SsgUnsetCommands(ips, p)[i] == SsgGroupRemove(p.zone, Group(p, Numbered(1)), ips[i])
    ensures SsgUnsetCommands(ips, p)[|ips|] == SsgGroupDelete(p.zone, Group(p, Unnumbered))
  {
    var n, g := |ips|, p.groupLimit;
    SsgSetLayout(ips, p);
    RevertNumberedIff(n, g);
    UnsetLayout(ips, p, RevertNumbered(n, g));
    GroupCountIsCeiling(n, g);
    forall i | 0 <= i < n
      ensures GroupOf(i, g) == 1
    {
      GroupOfExact(i, g, 1);
    }
  }

  /** The corrected unset output keeps the phase order and the deletions,
      and each removal names the group its address was added to. */
  lemma SsgUnsetFixedLayout(ips: seq<string>, p: Params)
    requires p.groupLimit >= 1
    ensures var r, n := SsgUnsetCommandsFixed(ips, p), |ips|;
      && |r| == 2 * n + GroupCount(n, p.groupLimit)
      && PhasesOrdered(r)
      && (forall i :: 0 <= i < n ==>
            r[i] == SsgGroupRemove(p.zone, SsgSetCommands(ips, p)[n + i].group, ips[i]))
  {
    UnsetLayout(ips, p, ApplyNumbered(|ips|, p.groupLimit));
  }
}
