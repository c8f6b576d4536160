/** Junos (SRX) command generation: `gen_srx_set_commands` and
    `gen_srx_delete_commands`. Both walk the list once and emit a pair of
    commands per address. */
module Srx {
  import opened Partition
  import opened Commands

  /** The pairs for items `i ..` of the set loop: the address-book entry
      `ip ip/32`, then its address-set membership. */
  function SetPairsFrom(ips: seq<string>, p: Params, numbered: bool, i: nat): (r: seq<Cmd>)
    requires p.groupLimit >= 1 && i <= |ips|
    ensures |r| == 2 * (|ips| - i)
    decreases |ips| - i
  {
    if i == |ips| then []
    else [SrxAddr(p.zone, ips[i]), SrxSetMember(p.zone, Group(p, Tag(numbered, i, p.groupLimit)), ips[i])]
         + SetPairsFrom(ips, p, numbered, i + 1)
  }

  /** The pairs for items `i ..` of the delete loop: the membership
      deletion, then the address-book entry deletion. */
  function DeletePairsFrom(ips: seq<string>, p: Params, numbered: bool, i: nat): (r: seq<Cmd>)
    requires p.groupLimit >= 1 && i <= |ips|
    ensures |r| == 2 * (|ips| - i)
    decreases |ips| - i
  {
    if i == |ips| then []
    else [SrxSetMemberDelete(p.zone, Group(p, Tag(numbered, i, p.groupLimit)), ips[i]), SrxAddrDelete(p.zone, ips[i])]
         + DeletePairsFrom(ips, p, numbered, i + 1)
  }

  lemma {:induction false} SetPairsContents(ips: seq<string>, p: Params, numbered: bool, i: nat)
    requires p.groupLimit >= 1 && i <= |ips|
    ensures forall c :: c in SetPairsFrom(ips, p, numbered, i) ==>
      (c.SrxAddr? || c.SrxSetMember?) && c.zone == p.zone
    decreases |ips| - i
  {
    if i < |ips| {
      SetPairsContents(ips, p, numbered, i + 1);
    }
  }

  lemma {:induction false} DeletePairsContents(ips: seq<string>, p: Params, numbered: bool, i: nat)
    requires p.groupLimit >= 1 && i <= |ips|
    ensures forall c :: c in DeletePairsFrom(ips, p, numbered, i) ==>
      (c.SrxSetMemberDelete? || c.SrxAddrDelete?) && c.zone == p.zone
    decreases |ips| - i
  {
    if i < |ips| {
      DeletePairsContents(ips, p, numbered, i + 1);
    }
  }

  /** `gen_srx_set_commands`; the netmask parameter is not used. Two SRX
      apply commands per address, in the batch's zone and in input order. */
  function SrxSetCommands(ips: seq<string>, p: Params): (r: seq<Cmd>)
    requires p.groupLimit >= 1
    ensures |r| == 2 * |ips|
    ensures forall c :: c in r ==> (c.SrxAddr? || c.SrxSetMember?) && c.zone == p.zone
  {
    SetPairsContents(ips, p, ApplyNumbered(|ips|, p.groupLimit), 0);
    SetPairsFrom(ips, p, ApplyNumbered(|ips|, p.groupLimit), 0)
  }

  /** `gen_srx_delete_commands` as written: the suffix is decided with
      `len / g`, unlike the set generator's `(len - 1) / g`. */
  function SrxDeleteCommands(ips: seq<string>, p: Params): (r: seq<Cmd>)
    requires p.groupLimit >= 1
    ensures |r| == 2 * |ips|
    ensures forall c :: c in r ==> (c.SrxSetMemberDelete? || c.SrxAddrDelete?) && c.zone == p.zone
  {
    DeletePairsContents(ips, p, RevertNumbered(|ips|, p.groupLimit), 0);
    DeletePairsFrom(ips, p, RevertNumbered(|ips|, p.groupLimit), 0)
  }

  /** `gen_srx_delete_commands` naming address-sets exactly as the set
      generator does. */
  function SrxDeleteCommandsFixed(ips: seq<string>, p: Params): seq<Cmd>
    requires p.groupLimit >= 1
  {
    DeletePairsFrom(ips, p, ApplyNumbered(|ips|, p.groupLimit), 0)
  }

  lemma {:induction false} SetPairsAt(ips: seq<string>, p: Params, numbered: bool, i: nat)
    requires p.groupLimit >= 1 && i <= |ips|
    ensures forall j :: i <= j < |ips| ==>
      && SetPairsFrom(ips, p, numbered, i)[2 * (j - i)] == SrxAddr(p.zone, ips[j])
      && SetPairsFrom(ips, p, numbered, i)[2 * (j - i) + 1]
           == SrxSetMember(p.zone, Group(p, Tag(numbered, j, p.groupLimit)), ips[j])
    decreases |ips| - i
  {
    if i < |ips| {
      SetPairsAt(ips, p, numbered, i + 1);
    }
  }

  lemma {:induction false} DeletePairsAt(ips: seq<string>, p: Params, numbered: bool, i: nat)
    requires p.groupLimit >= 1 && i <= |ips|
    ensures forall j :: i <= j < |ips| ==>
      && DeletePairsFrom(ips, p, numbered, i)[2 * (j - i)]
           == SrxSetMemberDelete(p.zone, Group(p, Tag(numbered, j, p.groupLimit)), ips[j])
      && DeletePairsFrom(ips, p, numbered, i)[2 * (j - i) + 1] == SrxAddrDelete(p.zone, ips[j])
    decreases |ips| - i
  {
    if i < |ips| {
      DeletePairsAt(ips, p, numbered, i + 1);
    }
  }

  /** The set output has `2n` commands: position `2i` is the address-book
      entry of IP `i`, position `2i + 1` puts it in address-set `i / g + 1`,
      whose name is numbered exactly when the list exceeds one group. */
  lemma SrxSetLayout(ips: seq<string>, p: Params)
    requires p.groupLimit >= 1
    ensures |SrxSetCommands(ips, p)| == 2 * |ips|
    ensures forall i :: 0 <= i < |ips| ==> SrxSetCommands(ips, p)[2 * i] == SrxAddr(p.zone, ips[i])
    ensures forall i :: 0 <= i < |ips| ==>
      SrxSetCommands(ips, p)[2 * i + 1] ==
        SrxSetMember(p.zone, Group(p, if |ips| > p.groupLimit then Numbered(GroupOf(i, p.groupLimit)) else Unnumbered), ips[i])
  {
    SetPairsAt(ips, p, ApplyNumbered(|ips|, p.groupLimit), 0);
    ApplyNumberedIff(|ips|, p.groupLimit);
  }

  /** The netmask argument has no effect on the set output. */
  lemma SrxSetIgnoresNetmask(ips: seq<string>, p: Params, mask: string)
    requires p.groupLimit >= 1
    ensures SrxSetCommands(ips, p) == SrxSetCommands(ips, p.(netmask := mask))
  {
    var q := p.(netmask := mask);
    SrxSetLayout(ips, p);
    SrxSetLayout(ips, q);
    var a, b := SrxSetCommands(ips, p), SrxSetCommands(ips, q);
    forall x | 0 <= x < |a|
      ensures a[x] == b[x]
    {
      var i := x / 2;
      assert x == 2 * i || x == 2 * i + 1;
      assert a[2 * i] == b[2 * i] == SrxAddr(p.zone, ips[i]);
      assert a[2 * i + 1] == b[2 * i + 1];
    }
  }

  /** The delete output has `2n` commands and nothing at group level:
      position `2i` removes IP `i` from its address-set (numbered as soon as
      the list fills one group), position `2i + 1` deletes its entry. */
  lemma SrxDeleteLayout(ips: seq<string>, p: Params)
    requires p.groupLimit >= 1
    ensures |SrxDeleteCommands(ips, p)| == 2 * |ips|
    ensures forall i :: 0 <= i < |ips| ==>
      SrxDeleteCommands(ips, p)[2 * i] ==
        SrxSetMemberDelete(p.zone, Group(p, if |ips| >= p.groupLimit then Numbered(GroupOf(i, p.groupLimit)) else Unnumbered), ips[i])
    ensures forall i :: 0 <= i < |ips| ==> SrxDeleteCommands(ips, p)[2 * i + 1] == SrxAddrDelete(p.zone, ips[i])
    ensures forall c :: c in SrxDeleteCommands(ips, p) ==> c.SrxSetMemberDelete? || c.SrxAddrDelete?
  {
    DeletePairsAt(ips, p, RevertNumbered(|ips|, p.groupLimit), 0);
    RevertNumberedIff(|ips|, p.groupLimit);
  }

  /** `d` deletes exactly what the apply command `a` created. */
  predicate Undoes(d: Cmd, a: Cmd) {
    || (d.SrxSetMemberDelete? && a.SrxSetMember? && d.zone == a.zone && d.group == a.group && d.ip == a.ip)
    || (d.SrxAddrDelete? && a.SrxAddr? && d.zone == a.zone && d.ip == a.ip)
  }

  /** The corrected delete output undoes the set output pair by pair, in
      reverse order within each pair: membership first, then the entry. */
  lemma SrxDeleteFixedUndoesSet(ips: seq<string>, p: Params)
    requires p.groupLimit >= 1
    ensures |SrxDeleteCommandsFixed(ips, p)| == |SrxSetCommands(ips, p)|
    ensures forall i :: 0 <= i < |ips| ==>
      && Undoes(SrxDeleteCommandsFixed(ips, p)[2 * i], SrxSetCommands(ips, p)[2 * i + 1])
      && Undoes(SrxDeleteCommandsFixed(ips, p)[2 * i + 1], SrxSetCommands(ips, p)[2 * i])
  {
    var numbered := ApplyNumbered(|ips|, p.groupLimit);
    SetPairsAt(ips, p, numbered, 0);
    DeletePairsAt(ips, p, numbered, 0);
    forall i | 0 <= i < |ips|
      ensures Undoes(SrxDeleteCommandsFixed(ips, p)[2 * i], SrxSetCommands(ips, p)[2 * i + 1])
      ensures Undoes(SrxDeleteCommandsFixed(ips, p)[2 * i + 1], SrxSetCommands(ips, p)[2 * i])
    {
      assert SrxSetCommands(ips, p)[2 * i] == SrxAddr(p.zone, ips[i]);
    }
  }

  /** Unless the list holds exactly `g` addresses, the delete output as
      written is the corrected one. */
  lemma SrxDeleteAgrees(ips: seq<string>, p: Params)
    requires p.groupLimit >= 1 && |ips| != p.groupLimit
    ensures SrxDeleteCommands(ips, p) == SrxDeleteCommandsFixed(ips, p)
  {
    ApplyNumberedIff(|ips|, p.groupLimit);
    RevertNumberedIff(|ips|, p.groupLimit);
  }

  /** With exactly `g` addresses no membership deletion as written undoes
      the membership it should: each names address-set `_1`, while the set
      output filled the unsuffixed one. */
  lemma SrxDeleteMissesAtLimit(ips: seq<string>, p: Params)
    requires p.groupLimit >= 1 && |ips| == p.groupLimit
    ensures forall i :: 0 <= i < |ips| ==> !Undoes(SrxDeleteCommands(ips, p)[2 * i], SrxSetCommands(ips, p)[2 * i + 1])
    ensures forall i :: 0 <= i < |ips| ==>
      SrxDeleteCommands(ips, p)[2 * i] == SrxSetMemberDelete(p.zone, Group(p, Numbered(1)), ips[i])
  {
    var n, g := |ips|, p.groupLimit;
    SetPairsAt(ips, p, ApplyNumbered(n, g), 0);
    DeletePairsAt(ips, p, RevertNumbered(n, g), 0);
    forall i | 0 <= i < n
      ensures !Undoes(SrxDeleteCommands(ips, p)[2 * i], SrxSetCommands(ips, p)[2 * i + 1])
      ensures SrxDeleteCommands(ips, p)[2 * i] == SrxSetMemberDelete(p.zone, Group(p, Numbered(1)), ips[i])
    {
      TagsDivergeAtLimit(n, g, i);
      assert SrxSetCommands(ips, p)[2 * i + 1] == SrxSetMember(p.zone, Group(p, Unnumbered), ips[i]);
    }
  }
}
