/** The pure parts of the SSH session drivers: how `run_via_ssh_srx`
    brackets the command list, how long it waits after each command, and
    when a drain of the channel stops reading. */
module Session {
  import opened Commands

  /** `list.insert(i, x)` for an index within the list. */
  function Insert(s: seq<string>, i: nat, x: string): (r: seq<string>)
    requires i <= |s|
    ensures |r| == |s| + 1 && r[i] == x
    ensures r[..i] == s[..i] && r[i + 1..] == s[i..]
  {
    s[..i] + [x] + s[i..]
  }

  /** The commands the driver adds around a command list. */
  const Prologue: seq<string> := ["configure", "rollback"]
  const Epilogue: seq<string> := ["commit check", "commit", "exit"]

  /** The list `run_via_ssh_srx` sends: `configure` and `rollback` inserted
      in front, then `commit check`, `commit` and `exit` appended. */
  function SrxSession(cmds: seq<string>): (r: seq<string>)
    ensures |r| == |cmds| + |Prologue| + |Epilogue|
    ensures r[..|Prologue|] == Prologue && r[|Prologue|..|Prologue| + |cmds|] == cmds
    ensures r[|Prologue| + |cmds|..] == Epilogue
  {
    Insert(Insert(cmds, 0, "configure"), 1, "rollback") + ["commit check"] + ["commit"] + ["exit"]
  }

  /** The session is the generated list bracketed by a fixed prologue and
      epilogue, with the generated commands kept in order as one slice. */
  lemma SrxSessionShape(cmds: seq<string>)
    ensures |SrxSession(cmds)| == |cmds| + 5
    ensures SrxSession(cmds) == ["configure", "rollback"] + cmds + ["commit check", "commit", "exit"]
    ensures SrxSession(cmds)[2..|cmds| + 2] == cmds
  {
    var once := Insert(cmds, 0, "configure");
    assert once == ["configure"] + cmds;
    var twice := Insert(once, 1, "rollback");
    assert twice == ["configure", "rollback"] + cmds;
    assert SrxSession(cmds) == twice + ["commit check", "commit", "exit"];
  }

  /** How long the driver sleeps before reading a command's output:
      `Long` is 5 s, `Medium` 1 s and `Short` 0.05 s. */
  datatype Delay = Long | Medium | Short

  /** Only the driver's own commands wait longer than the short delay:
      the prologue a medium time, the two commits a long time. */
  function SettleDelay(cmd: string): (r: Delay)
    ensures r == Medium <==> cmd in Prologue
    ensures r == Long <==> cmd in Epilogue[..2]
    ensures r == Short <==> cmd !in Prologue + Epilogue[..2]
  {
    assert Epilogue[..2] == ["commit check", "commit"];
    if cmd == "commit" || cmd == "commit check" then Long
    else if cmd == "configure" || cmd == "rollback" then Medium
    else Short
  }

  /** No rendered command is one of the session keywords, since each starts
      with `set `, `unset ` or `delete `. */
  lemma RenderedIsNoKeyword(c: Cmd)
    ensures SettleDelay(Render(c)) == Short
  {
    var s := Render(c);
    assert StartsWith(s, "set ") || StartsWith(s, "unset ") || StartsWith(s, "delete ");
    assert s != "commit" && s != "commit check" && s != "configure" && s != "rollback" by {
      if StartsWith(s, "set ") {
        assert s[0] == 's';
      } else if StartsWith(s, "unset ") {
        assert s[0] == 'u';
      } else {
        assert s[0] == 'd';
      }
    }
  }

  /** Over a session of generated commands the delays run: two medium
      (`configure`, `rollback`), a short one per generated command, two long
      (`commit check`, `commit`) and a short one for `exit`. */
  lemma SrxSessionDelays(cs: seq<Cmd>)
    ensures var r := SrxSession(RenderAll(cs));
      forall i :: 0 <= i < |r| ==>
        SettleDelay(r[i]) == if i < 2 then Medium else if i < |cs| + 2 then Short else if i < |cs| + 4 then Long else Short
  {
    var cmds := RenderAll(cs);
    SrxSessionShape(cmds);
    var r := SrxSession(cmds);
    forall i | 2 <= i < |cs| + 2
      ensures SettleDelay(r[i]) == Short
    {
      assert r[i] == cmds[i - 2] == Render(cs[i - 2]);
      RenderedIsNoKeyword(cs[i - 2]);
    }
  }

  // ---- draining the channel -------------------------------------------

  /** `channel.recv(1024)`: the most one read returns. */
  const RecvSize: nat := 1024

  /** One read: the bytes it returned, or a timeout (an exception). */
  datatype Read = Chunk(data: string) | TimedOut

  /** A drain either collects output from the first `used` reads or fails
      on the read at index `used`. */
  datatype Drain = Drained(output: string, used: nat) | DrainFailed(used: nat)

  predicate AllChunks(rs: seq<Read>) {
    forall j :: 0 <= j < |rs| ==> rs[j].Chunk?
  }

  function Joined(rs: seq<Read>): string
    requires AllChunks(rs)
  {
    if rs == [] then "" else Joined(rs[..|rs| - 1]) + rs[|rs| - 1].data
  }

  /** The read loop of both drivers over the reads a channel yields before
      it closes: keep appending until a read returns fewer than `RecvSize`
      bytes, the channel closes, or a read times out. */
  method DrainChannel(rs: seq<Read>) returns (r: Drain)
    ensures r.used <= |rs|
    ensures r.Drained? ==>
      && AllChunks(rs[..r.used])
      && r.output == Joined(rs[..r.used])
      && (forall j :: 0 <= j < r.used - 1 ==> |rs[j].data| >= RecvSize)
      && (r.used == |rs| || (r.used >= 1 && |rs[r.used - 1].data| < RecvSize))
    ensures r.DrainFailed? ==>
      && r.used < |rs| && rs[r.used].TimedOut?
      && (forall j :: 0 <= j < r.used ==> rs[j].Chunk? && |rs[j].data| >= RecvSize)
  {
    var output := "";
    var i := 0;
    while i < |rs|
      invariant 0 <= i <= |rs|
      invariant forall j :: 0 <= j < i ==> rs[j].Chunk? && |rs[j].data| >= RecvSize
      invariant AllChunks(rs[..i]) && output == Joined(rs[..i])
    {
      match rs[i]
      case TimedOut =>
        return DrainFailed(i);
      case Chunk(d) =>
        assert rs[..i + 1][..i] == rs[..i];
        output := output + d;
        i := i + 1;
        if |d| < RecvSize {
          return Drained(output, i);
        }
    }
    return Drained(output, i);
  }
}
