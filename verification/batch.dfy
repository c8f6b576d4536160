/** A batch: the add and remove command lists a device class builds once at
    construction, and `BatchGroup.__str__`, which joins both lists with
    line breaks. */
module Batch {
  import opened Partition
  import opened Commands
  import Ssg
  import Srx

  datatype BatchGroup = BatchGroup(addCommands: seq<string>, removeCommands: seq<string>)

  // Defaults the SSG and SRX constructors fill in for an argument left out.
  const DefaultNetmask: string := "255.255.255.255"
  const DefaultPrefix: string := "Deny_addr"
  const DefaultZone: string := "V1-Untrust"
  const DefaultGroupLimit: int := 256

  /** The constructor arguments a caller may leave as `None`. */
  datatype Settings = Settings(
    netmask: Option<string>,
    description: Option<string>,
    prefix: Option<string>,
    zone: Option<string>,
    groupLimit: Option<int>)

  function OrElse<T>(o: Option<T>, d: T): T {
    match o
    case None => d
    case Some(v) => v
  }

  /** The parameters both constructors pass to the generators: a supplied
      argument is kept, a missing one gets its default. `today` stands for
      `date.today().isoformat()`, the default description. The generators
      can run exactly when the group limit is left out or supplied as at
      least 1. */
  function Resolve(s: Settings, today: string): (p: Params)
    ensures s.netmask.Some? ==> p.netmask == s.netmask.value
    ensures s.description.Some? ==> p.description == s.description.value
    ensures s.prefix.Some? ==> p.prefix == s.prefix.value
    ensures s.zone.Some? ==> p.zone == s.zone.value
    ensures s.groupLimit.Some? ==> p.groupLimit == s.groupLimit.value
    ensures s.netmask.None? ==> p.netmask == DefaultNetmask
    ensures s.description.None? ==> p.description == today
    ensures s.prefix.None? ==> p.prefix == DefaultPrefix
    ensures s.zone.None? ==> p.zone == DefaultZone
    ensures s.groupLimit.None? ==> p.groupLimit == DefaultGroupLimit
    ensures p.groupLimit >= 1 <==> (s.groupLimit.None? || s.groupLimit.value >= 1)
  {
    Params(
      OrElse(s.prefix, DefaultPrefix),
      OrElse(s.description, today),
      OrElse(s.groupLimit, DefaultGroupLimit),
      OrElse(s.zone, DefaultZone),
      OrElse(s.netmask, DefaultNetmask))
  }

  /** Every argument supplied. */
  function Supplied(p: Params): Settings {
    Settings(Some(p.netmask), Some(p.description), Some(p.prefix), Some(p.zone), Some(p.groupLimit))
  }

  /** Supplying every argument passes the parameters through unchanged, and
      resolving is idempotent: resolving the outcome's own arguments gives
      the outcome again, whatever the date. */
  lemma ResolveKeepsSupplied(p: Params, s: Settings, today: string, later: string)
    ensures Resolve(Supplied(p), today) == p
    ensures Resolve(Supplied(Resolve(s, today)), later) == Resolve(s, today)
  {
  }

  /** The `SSG` class: one rendered `set` line per set command and one
      `unset` line per unset command, as the source generates them. */
  function SsgBatch(ips: seq<string>, p: Params): (r: BatchGroup)
    requires p.groupLimit >= 1
    ensures |r.addCommands| == 2 * |ips|
    ensures |r.removeCommands| == 2 * |ips| + GroupCount(|ips|, p.groupLimit)
    ensures forall i :: 0 <= i < |r.addCommands| ==> StartsWith(r.addCommands[i], "set ")
    ensures forall i :: 0 <= i < |r.removeCommands| ==> StartsWith(r.removeCommands[i], "unset ")
  {
    BatchGroup(RenderAll(Ssg.SsgSetCommands(ips, p)), RenderAll(Ssg.SsgUnsetCommands(ips, p)))
  }

  /** The `SRX` class: one rendered `set` line per set command and one
      `delete` line per delete command, as the source generates them. */
  function SrxBatch(ips: seq<string>, p: Params): (r: BatchGroup)
    requires p.groupLimit >= 1
    ensures |r.addCommands| == 2 * |ips| && |r.removeCommands| == 2 * |ips|
    ensures forall i :: 0 <= i < |r.addCommands| ==> StartsWith(r.addCommands[i], "set ")
    ensures forall i :: 0 <= i < |r.removeCommands| ==> StartsWith(r.removeCommands[i], "delete ")
  {
    var sets, del := Srx.SrxSetCommands(ips, p), Srx.SrxDeleteCommands(ips, p);
    assert forall i :: 0 <= i < |sets| ==> sets[i] in sets;
    assert forall i :: 0 <= i < |del| ==> del[i] in del;
    BatchGroup(RenderAll(sets), RenderAll(del))
  }

  /** `"\n".join(lines)`: the first line, then a line break before each
      further line. */
  function Join(lines: seq<string>): (r: string)
    ensures lines == [] ==> r == ""
    ensures |lines| >= 1 ==> StartsWith(r, lines[0])
    ensures |lines| >= 2 ==> |r| > |lines[0]| && r[|lines[0]|] == '\n'
  {
    if |lines| == 0 then ""
    else if |lines| == 1 then lines[0]
    else lines[0] + "\n" + Join(lines[1..])
  }

  /** `BatchGroup.__str__`: empty for an empty batch, otherwise it opens
      with the first add command (or the first remove command when there
      are no add commands). */
  function Text(b: BatchGroup): (r: string)
    ensures b.addCommands + b.removeCommands == [] ==> r == ""
    ensures |b.addCommands| >= 1 ==> StartsWith(r, b.addCommands[0])
    ensures b.addCommands == [] && |b.removeCommands| >= 1 ==> StartsWith(r, b.removeCommands[0])
  {
    assert |b.addCommands| >= 1 ==> (b.addCommands + b.removeCommands)[0] == b.addCommands[0];
    Join(b.addCommands + b.removeCommands)
  }

  /** Index of the first line break, or `|s|` when there is none. */
  function NewlineIndex(s: string): (i: nat)
    ensures i <= |s|
    ensures i < |s| ==> s[i] == '\n'
    ensures forall j :: 0 <= j < i ==> s[j] != '\n'
  {
    if s == [] then 0
    else if s[0] == '\n' then 0
    else 1 + NewlineIndex(s[1..])
  }

  /** `s.split("\n")`. */
  function SplitLines(s: string): (r: seq<string>)
    ensures |r| >= 1
    decreases |s|
  {
    var i := NewlineIndex(s);
    if i == |s| then [s] else [s[..i]] + SplitLines(s[i + 1..])
  }

  /** The first line break of `line + "\n" + rest` is the one after `line`. */
  lemma FirstBreak(line: string, rest: string)
    requires NoNewline(line)
    ensures var s := line + "\n" + rest;
      NewlineIndex(s) == |line| && s[..|line|] == line && s[|line| + 1..] == rest
  {
    var s := line + "\n" + rest;
    assert s[|line|] == '\n';
    assert forall j :: 0 <= j < |line| ==> s[j] == line[j];
  }

  /** Joining lines that hold no line break and splitting the result gives
      the lines back. */
  lemma {:induction false} SplitJoin(lines: seq<string>)
    requires |lines| >= 1
    requires forall i :: 0 <= i < |lines| ==> NoNewline(lines[i])
    ensures SplitLines(Join(lines)) == lines
    decreases |lines|
  {
    var first := lines[0];
    if |lines| == 1 {
      assert NewlineIndex(first) == |first|;
    } else {
      var rest := Join(lines[1..]);
      assert Join(lines) == first + "\n" + rest;
      FirstBreak(first, rest);
      SplitJoin(lines[1..]);
      assert lines == [first] + lines[1..];
    }
  }

  /** Every text field of the batch is a single line (true of lines read
      from a file and stripped). */
  predicate SingleLineInputs(ips: seq<string>, p: Params) {
    && (forall i :: 0 <= i < |ips| ==> NoNewline(ips[i]))
    && NoNewline(p.zone) && NoNewline(p.prefix) && NoNewline(p.description) && NoNewline(p.netmask)
  }

  lemma RenderedSingleLine(cs: seq<Cmd>)
    requires forall c :: c in cs ==> FieldsSingleLine(c)
    ensures forall i :: 0 <= i < |RenderAll(cs)| ==> NoNewline(RenderAll(cs)[i])
  {
    forall i | 0 <= i < |cs|
      ensures NoNewline(RenderAll(cs)[i])
    {
      assert cs[i] in cs;
      RenderSingleLine(cs[i]);
    }
  }

  predicate AllFieldsSingleLine(cs: seq<Cmd>) {
    forall c :: c in cs ==> FieldsSingleLine(c)
  }

  lemma SsgFieldsSingleLine(ips: seq<string>, p: Params)
    requires p.groupLimit >= 1 && SingleLineInputs(ips, p)
    ensures forall c :: c in Ssg.SsgSetCommands(ips, p) + Ssg.SsgUnsetCommands(ips, p) ==> FieldsSingleLine(c)
  {
    var n, g := |ips|, p.groupLimit;
    var defs := Ssg.AddressDefinitions(ips, p);
    var adds := Ssg.Memberships(ips, p, ApplyNumbered(n, g));
    var removes := Ssg.Removals(ips, p, RevertNumbered(n, g));
    var groups := Ssg.GroupDeletions(n, p);
    var forgets := Ssg.AddressDeletions(ips, p);
    assert AllFieldsSingleLine(defs) by {
      forall c | c in defs ensures FieldsSingleLine(c) {
        var x :| 0 <= x < n && defs[x] == c;
      }
    }
    assert AllFieldsSingleLine(adds) by {
      forall c | c in adds ensures FieldsSingleLine(c) {
        var x :| 0 <= x < n && adds[x] == c;
      }
    }
    assert AllFieldsSingleLine(removes) by {
      forall c | c in removes ensures FieldsSingleLine(c) {
        var x :| 0 <= x < n && removes[x] == c;
      }
    }
    assert AllFieldsSingleLine(groups) by {
      forall c | c in groups ensures FieldsSingleLine(c) {
        var x :| 0 <= x < |groups| && groups[x] == c;
      }
    }
    assert AllFieldsSingleLine(forgets) by {
      forall c | c in forgets ensures FieldsSingleLine(c) {
        var x :| 0 <= x < n && forgets[x] == c;
      }
    }
    assert Ssg.SsgSetCommands(ips, p) + Ssg.SsgUnsetCommands(ips, p) == defs + adds + removes + groups + forgets;
  }

  /** From entry `i` on, the SRX pair lists carry only single-line fields. */
  lemma {:induction false} PairsSingleLine(ips: seq<string>, p: Params, numbered: bool, i: nat)
    requires p.groupLimit >= 1 && i <= |ips| && SingleLineInputs(ips, p)
    ensures AllFieldsSingleLine(Srx.SetPairsFrom(ips, p, numbered, i))
    ensures AllFieldsSingleLine(Srx.DeletePairsFrom(ips, p, numbered, i))
    decreases |ips| - i
  {
    if i < |ips| {
      assert NoNewline(ips[i]);
      PairsSingleLine(ips, p, numbered, i + 1);
    }
  }

  /** Both SRX lists carry only single-line fields. */
  lemma SrxFieldsSingleLine(ips: seq<string>, p: Params)
    requires p.groupLimit >= 1 && SingleLineInputs(ips, p)
    ensures forall c :: c in Srx.SrxSetCommands(ips, p) + Srx.SrxDeleteCommands(ips, p) ==> FieldsSingleLine(c)
  {
    PairsSingleLine(ips, p, ApplyNumbered(|ips|, p.groupLimit), 0);
    PairsSingleLine(ips, p, RevertNumbered(|ips|, p.groupLimit), 0);
  }

  /** The text of any batch whose lines hold no line break, with at least
      one line, splits back into its add commands followed by its remove
      commands. */
  lemma TextRoundTrip(b: BatchGroup)
    requires |b.addCommands + b.removeCommands| >= 1
    requires forall i :: 0 <= i < |b.addCommands + b.removeCommands| ==> NoNewline((b.addCommands + b.removeCommands)[i])
    ensures SplitLines(Text(b)) == b.addCommands + b.removeCommands
  {
    SplitJoin(b.addCommands + b.removeCommands);
  }

  /** For a non-empty list of single-line inputs the text of an SSG batch
      splits back into its add commands followed by its remove commands. */
  lemma SsgTextRoundTrip(ips: seq<string>, p: Params)
    requires p.groupLimit >= 1 && |ips| >= 1 && SingleLineInputs(ips, p)
    ensures SplitLines(Text(SsgBatch(ips, p))) == SsgBatch(ips, p).addCommands + SsgBatch(ips, p).removeCommands
  {
    var sets, unset := Ssg.SsgSetCommands(ips, p), Ssg.SsgUnsetCommands(ips, p);
    SsgFieldsSingleLine(ips, p);
    RenderedSingleLine(sets + unset);
    RenderAllAppend(sets, unset);
    Ssg.SsgSetLayout(ips, p);
    TextRoundTrip(SsgBatch(ips, p));
  }

  /** The same for an SRX batch. */
  lemma SrxTextRoundTrip(ips: seq<string>, p: Params)
    requires p.groupLimit >= 1 && |ips| >= 1 && SingleLineInputs(ips, p)
    ensures SplitLines(Text(SrxBatch(ips, p))) == SrxBatch(ips, p).addCommands + SrxBatch(ips, p).removeCommands
  {
    var sets, del := Srx.SrxSetCommands(ips, p), Srx.SrxDeleteCommands(ips, p);
    SrxFieldsSingleLine(ips, p);
    RenderedSingleLine(sets + del);
    RenderAllAppend(sets, del);
    Srx.SrxSetLayout(ips, p);
    TextRoundTrip(SrxBatch(ips, p));
  }

  lemma RenderAllAppend(a: seq<Cmd>, b: seq<Cmd>)
    ensures RenderAll(a + b) == RenderAll(a) + RenderAll(b)
  {
  }
}
