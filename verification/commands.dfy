/** The Juniper CLI commands the generators emit, as structured values, and
    the exact text each one renders to. */
module Commands {
  import opened Partition
  import Decimal

  /** Parameters shared by all four generators. */
  datatype Params = Params(
    prefix: string,       // addr_group_prefix / addr_group_descr
    description: string,  // addr_description
    groupLimit: int,      // group_limit
    zone: string,
    netmask: string)

  /** An optional value: a constructor argument left as `None`, or the
      outcome of a command the device may refuse. */
  datatype Option<T> = None | Some(value: T)

  /** A group (SSG address group, SRX address-set) named
      `<prefix>_<description>[_<n>]`. */
  datatype GroupName = GroupName(prefix: string, description: string, tag: GroupTag)

  /** The group of a batch with the given tag. */
  function Group(p: Params, t: GroupTag): GroupName {
    GroupName(p.prefix, p.description, t)
  }

  datatype Cmd =
    // ScreenOS (SSG)
    | SsgAddrDef(zone: string, ip: string, netmask: string, description: string)
    | SsgGroupAdd(zone: string, group: GroupName, ip: string)
    | SsgGroupRemove(zone: string, group: GroupName, ip: string)
    | SsgGroupDelete(zone: string, group: GroupName)
    | SsgAddrDelete(zone: string, ip: string)
    // Junos (SRX)
    | SrxAddr(zone: string, ip: string)
    | SrxSetMember(zone: string, group: GroupName, ip: string)
    | SrxSetMemberDelete(zone: string, group: GroupName, ip: string)
    | SrxAddrDelete(zone: string, ip: string)

  /** Commands that add configuration (the apply side). */
  predicate IsApply(c: Cmd) {
    c.SsgAddrDef? || c.SsgGroupAdd? || c.SrxAddr? || c.SrxSetMember?
  }

  function Suffix(t: GroupTag): string {
    match t
    case Unnumbered => ""
    case Numbered(k) => "_" + Decimal.NatToString(k)
  }

  function GroupLabel(gn: GroupName): string {
    gn.prefix + "_" + gn.description + Suffix(gn.tag)
  }

  function Quoted(s: string): string {
    "\"" + s + "\""
  }

  const SrxBook: string := "security zones security-zone "

  /** The pieces each command is concatenated from, in order. */
  function Parts(c: Cmd): seq<string> {
    match c
    case SsgAddrDef(zone, ip, mask, descr) =>
      ["set address ", Quoted(zone), " ", Quoted(ip), " ", ip, " ", mask, " ", Quoted(descr)]
    case SsgGroupAdd(zone, gn, ip) =>
      ["set group address ", Quoted(zone), " ", Quoted(GroupLabel(gn)), " add ", Quoted(ip)]
    case SsgGroupRemove(zone, gn, ip) =>
      ["unset group address ", Quoted(zone), " ", Quoted(GroupLabel(gn)), " remove ", Quoted(ip)]
    case SsgGroupDelete(zone, gn) =>
      ["unset group address ", Quoted(zone), " ", Quoted(GroupLabel(gn))]
    case SsgAddrDelete(zone, ip) =>
      ["unset address ", Quoted(zone), " ", Quoted(ip)]
    case SrxAddr(zone, ip) =>
      ["set ", SrxBook, zone, " address-book address ", ip, " ", ip, "/32"]
    case SrxSetMember(zone, gn, ip) =>
      ["set ", SrxBook, zone, " address-book address-set ", GroupLabel(gn), " address ", ip]
    case SrxSetMemberDelete(zone, gn, ip) =>
      ["delete ", SrxBook, zone, " address-book address-set ", GroupLabel(gn), " address ", ip]
    case SrxAddrDelete(zone, ip) =>
      ["delete ", SrxBook, zone, " address-book address ", ip, " ", ip, "/32"]
  }

  function Concat(parts: seq<string>): string {
    if parts == [] then "" else parts[0] + Concat(parts[1..])
  }

  /** The CLI text of a command: its pieces joined in order. Apply commands
      read `set ...`, ScreenOS revert commands `unset ...` and Junos revert
      commands `delete ...`. */
  function Render(c: Cmd): (r: string)
    ensures IsApply(c) ==> StartsWith(r, "set ")
    ensures (c.SsgGroupRemove? || c.SsgGroupDelete? || c.SsgAddrDelete?) ==> StartsWith(r, "unset ")
    ensures (c.SrxSetMemberDelete? || c.SrxAddrDelete?) ==> StartsWith(r, "delete ")
  {
    var parts := Parts(c);
    var verb := if IsApply(c) then "set " else if c.SrxSetMemberDelete? || c.SrxAddrDelete? then "delete " else "unset ";
    assert StartsWith(parts[0], verb);
    StartsWithConcat(parts[0], Concat(parts[1..]), verb);
    Concat(parts)
  }

  function RenderAll(cs: seq<Cmd>): (r: seq<string>)
    ensures |r| == |cs|
    ensures forall i :: 0 <= i < |cs| ==> r[i] == Render(cs[i])
  {
    if cs == [] then [] else [Render(cs[0])] + RenderAll(cs[1..])
  }

  lemma SuffixInjective(a: GroupTag, b: GroupTag)
    ensures Suffix(a) == Suffix(b) <==> a == b
  {
    if Suffix(a) == Suffix(b) && a.Numbered? && b.Numbered? {
      assert Suffix(a)[1..] == Decimal.NatToString(a.number);
      assert Suffix(b)[1..] == Decimal.NatToString(b.number);
      Decimal.RenderInjective(a.number, b.number);
    }
  }

  /** Within one batch (fixed prefix and description) two groups share a
      rendered name exactly when they share a tag, so tags identify groups
      on the device. */
  lemma GroupLabelInjective(a: GroupName, b: GroupName)
    requires a.prefix == b.prefix && a.description == b.description
    ensures GroupLabel(a) == GroupLabel(b) <==> a.tag == b.tag
  {
    var stem := a.prefix + "_" + a.description;
    assert GroupLabel(a) == stem + Suffix(a.tag);
    assert GroupLabel(b) == stem + Suffix(b.tag);
    if GroupLabel(a) == GroupLabel(b) {
      assert Suffix(a.tag) == GroupLabel(a)[|stem|..];
      assert Suffix(b.tag) == GroupLabel(b)[|stem|..];
    }
    SuffixInjective(a.tag, b.tag);
  }

  predicate StartsWith(s: string, p: string) {
    |p| <= |s| && s[..|p|] == p
  }

  lemma StartsWithConcat(a: string, b: string, p: string)
    requires StartsWith(a, p)
    ensures StartsWith(a + b, p)
  {
    assert (a + b)[..|p|] == a[..|p|];
  }

  predicate NoNewline(s: string) {
    forall i :: 0 <= i < |s| ==> s[i] != '\n'
  }

  /** Every text field a command carries is free of line breaks. */
  predicate FieldsSingleLine(c: Cmd) {
    && NoNewline(c.zone)
    && (!c.SsgGroupDelete? ==> NoNewline(c.ip))
    && (c.SsgAddrDef? ==> NoNewline(c.netmask) && NoNewline(c.description))
    && (c.SsgGroupAdd? || c.SsgGroupRemove? || c.SsgGroupDelete? || c.SrxSetMember? || c.SrxSetMemberDelete? ==>
          NoNewline(c.group.prefix) && NoNewline(c.group.description))
  }

  lemma NoNewlineConcat(a: string, b: string)
    ensures NoNewline(a + b) <==> NoNewline(a) && NoNewline(b)
  {
    if NoNewline(a) && NoNewline(b) {
      forall i | 0 <= i < |a + b|
        ensures (a + b)[i] != '\n'
      {
        if i >= |a| {
          assert (a + b)[i] == b[i - |a|];
        }
      }
    }
    if NoNewline(a + b) {
      forall i | 0 <= i < |a|
        ensures a[i] != '\n'
      {
        assert (a + b)[i] == a[i];
      }
      forall i | 0 <= i < |b|
        ensures b[i] != '\n'
      {
        assert (a + b)[|a| + i] == b[i];
      }
    }
  }

  lemma LabelSingleLine(gn: GroupName)
    requires NoNewline(gn.prefix) && NoNewline(gn.description)
    ensures NoNewline(GroupLabel(gn))
  {
    NoNewlineConcat(gn.prefix, "_");
    NoNewlineConcat(gn.prefix + "_", gn.description);
    if gn.tag.Numbered? {
      NoNewlineConcat("_", Decimal.NatToString(gn.tag.number));
    }
    NoNewlineConcat(gn.prefix + "_" + gn.description, Suffix(gn.tag));
  }

  lemma QuotedSingleLine(s: string)
    requires NoNewline(s)
    ensures NoNewline(Quoted(s))
  {
    NoNewlineConcat("\"", s);
    NoNewlineConcat("\"" + s, "\"");
  }

  /** A command whose fields hold no line break renders as one line. */
  lemma RenderSingleLine(c: Cmd)
    requires FieldsSingleLine(c)
    ensures NoNewline(Render(c))
  {
    match c {
      case SsgAddrDef(zone, ip, mask, descr) =>
        QuotedSingleLine(zone); QuotedSingleLine(ip); QuotedSingleLine(descr);
      case SsgGroupAdd(zone, gn, ip) =>
        LabelSingleLine(gn); QuotedSingleLine(zone); QuotedSingleLine(GroupLabel(gn)); QuotedSingleLine(ip);
      case SsgGroupRemove(zone, gn, ip) =>
        LabelSingleLine(gn); QuotedSingleLine(zone); QuotedSingleLine(GroupLabel(gn)); QuotedSingleLine(ip);
      case SsgGroupDelete(zone, gn) =>
        LabelSingleLine(gn); QuotedSingleLine(zone); QuotedSingleLine(GroupLabel(gn));
      case SsgAddrDelete(zone, ip) =>
        QuotedSingleLine(zone); QuotedSingleLine(ip);
      case SrxAddr(zone, ip) =>
      case SrxSetMember(zone, gn, ip) =>
        LabelSingleLine(gn);
      case SrxSetMemberDelete(zone, gn, ip) =>
        LabelSingleLine(gn);
      case SrxAddrDelete(zone, ip) =>
    }
    var parts := Parts(c);
    forall i | 0 <= i < |parts|
      ensures NoNewline(parts[i])
    {
      PartSingleLine(c, i);
    }
    ConcatSingleLine(parts);
  }

  lemma PartSingleLine(c: Cmd, i: nat)
    requires FieldsSingleLine(c) && i < |Parts(c)|
    requires c.SsgAddrDef? ==> NoNewline(Quoted(c.zone)) && NoNewline(Quoted(c.ip)) && NoNewline(Quoted(c.description))
    requires c.SsgGroupAdd? || c.SsgGroupRemove? ==>
      NoNewline(Quoted(c.zone)) && NoNewline(Quoted(GroupLabel(c.group))) && NoNewline(Quoted(c.ip))
    requires c.SsgGroupDelete? ==> NoNewline(Quoted(c.zone)) && NoNewline(Quoted(GroupLabel(c.group)))
    requires c.SsgAddrDelete? ==> NoNewline(Quoted(c.zone)) && NoNewline(Quoted(c.ip))
    requires c.SrxSetMember? || c.SrxSetMemberDelete? ==> NoNewline(GroupLabel(c.group))
    ensures NoNewline(Parts(c)[i])
  {
    FixedPartsSingleLine();
    match c {
      case SsgAddrDef(_, _, _, _) =>
      case SsgGroupAdd(_, _, _) =>
      case SsgGroupRemove(_, _, _) =>
      case SsgGroupDelete(_, _) =>
      case SsgAddrDelete(_, _) =>
      case SrxAddr(_, _) =>
      case SrxSetMember(_, _, _) =>
      case SrxSetMemberDelete(_, _, _) =>
      case SrxAddrDelete(_, _) =>
    }
  }

  lemma FixedPartsSingleLine()
    ensures NoNewline("set address ") && NoNewline("set group address ") && NoNewline("unset group address ")
    ensures NoNewline("unset address ") && NoNewline(" ") && NoNewline(" add ") && NoNewline(" remove ")
    ensures NoNewline("set ") && NoNewline("delete ") && NoNewline(SrxBook) && NoNewline("/32")
    ensures NoNewline(" address-book address ") && NoNewline(" address-book address-set ") && NoNewline(" address ")
  {
  }

  lemma {:induction false} ConcatSingleLine(parts: seq<string>)
    requires forall i :: 0 <= i < |parts| ==> NoNewline(parts[i])
    ensures NoNewline(Concat(parts))
  {
    if parts != [] {
      ConcatSingleLine(parts[1..]);
      NoNewlineConcat(parts[0], Concat(parts[1..]));
    }
  }
}
