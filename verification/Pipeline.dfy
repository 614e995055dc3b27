/** How the shell wires the commands of a pipeline together. */
module Pipeline {

  /** What a descriptor refers to: something open before the pipeline was started, or an
      end of one of its pipes. */
  datatype Endpoint = Opened(id: nat) | ReadEnd(pipe: nat) | WriteEnd(pipe: nat)

  type Table = map<nat, Endpoint>

  /** A command of the pipeline with the descriptors it was started with. */
  datatype Started = Started(command: nat, table: Table)

  /** Numbers the pipes of one pipeline and records the commands it starts. */
  class Ledger {
    var pipes: nat
    var started: seq<Started>

    constructor ()
      ensures pipes == 0 && started == []
    {
      pipes, started := 0, [];
    }
  }

  function Moved(fds: Table, oldFd: nat, newFd: nat): Table
    requires oldFd in fds
  {
    if oldFd == newFd then fds else fds[newFd := fds[oldFd]] - {oldFd}
  }

  ghost predicate Unused(base: Table, ends: seq<nat>) {
    && (forall i :: 0 <= i < |ends| ==> ends[i] !in base)
    && (forall i, j :: 0 <= i < j < |ends| ==> ends[i] != ends[j])
  }

  /** The parent's table once it has read ends at these descriptors. */
  function Inherited(base: Table, ends: seq<nat>): Table {
    if ends == [] then base
    else
      var k := |ends| - 1;
      Inherited(base, ends[..k])[ends[k] := ReadEnd(k)]
  }

  /** The table that command `i` of `n` is started with. */
  function CommandTable(base: Table, ends: seq<nat>, i: nat, n: nat): Table
    requires 0 in base && 1 in base && i <= |ends| && i < n
  {
    var input := if i == 0 then base[0] else ReadEnd(i - 1);
    var output := if i + 1 == n then base[1] else WriteEnd(i);
    (Inherited(base, ends[..i]) - if i == 0 then {} else {ends[i - 1]})[0 := input][1 := output]
  }

  /** The commands from `k` on, each with its table. */
  function Wiring(base: Table, ends: seq<nat>, k: nat, n: nat): seq<Started>
    requires 0 in base && 1 in base && k <= n == |ends| + 1
  {
    seq(n - k, i requires 0 <= i < n - k => Started(k + i, CommandTable(base, ends, k + i, n)))
  }

  lemma WiringStep(base: Table, ends: seq<nat>, k: nat, n: nat)
    requires 0 in base && 1 in base && k < n == |ends| + 1
    ensures Wiring(base, ends, k, n)
         == [Started(k, CommandTable(base, ends, k, n))] + Wiring(base, ends, k + 1, n)
    ensures k + 1 == n ==> Wiring(base, ends, k, n) == [Started(k, CommandTable(base, ends, k, n))]
  {
    hide CommandTable;
  }

  lemma {:induction false} InheritedIs(base: Table, ends: seq<nat>)
    requires Unused(base, ends)
    ensures forall d :: d in Inherited(base, ends) <==> d in base || d in ends
    ensures forall d :: d in base ==> Inherited(base, ends)[d] == base[d]
    ensures forall j :: 0 <= j < |ends| ==> Inherited(base, ends)[ends[j]] == ReadEnd(j)
  {
    if ends != [] {
      var k := |ends| - 1;
      InheritedIs(base, ends[..k]);
      assert ends == ends[..k] + [ends[k]];
    }
  }

  lemma UnusedPrefix(base: Table, ends: seq<nat>, i: nat)
    requires Unused(base, ends) && i <= |ends|
    ensures Unused(base, ends[..i])
  {}

  lemma GrowInherited(base: Table, ends: seq<nat>, r: nat)
    ensures Inherited(base, ends + [r]) == Inherited(base, ends)[r := ReadEnd(|ends|)]
  {
    assert (ends + [r])[..|ends|] == ends;
  }

  /** The last command runs in the parent itself. */
  lemma LastTable(base: Table, ends: seq<nat>, n: nat, fd: nat)
    requires 0 in base && 1 in base && Unused(base, ends) && n == |ends| + 1
    requires fd == if ends == [] then 0 else ends[|ends| - 1]
    ensures fd in Inherited(base, ends)
    ensures Moved(Inherited(base, ends), fd, 0) == CommandTable(base, ends, |ends|, n)
  {
    hide Inherited;
    InheritedIs(base, ends);
    assert ends[..|ends|] == ends;
  }

  lemma ChildMap(before: Table, fd: nat, r: nat, w: nat, k: nat)
    requires fd in before && 1 in before && r !in before && w !in before && w != r && fd != 1
    requires 0 in before
    ensures var forked := before[r := ReadEnd(k)][w := WriteEnd(k)] - {r};
      && fd in forked && w in Moved(forked, fd, 0)
      && Moved(Moved(forked, fd, 0), w, 1)
           == (before - if fd == 0 then {} else {fd})[0 := before[fd]][1 := WriteEnd(k)]
  {}

  /** Every other command runs in a child, which holds both ends of its pipe at first. */
  lemma ChildTable(base: Table, all: seq<nat>, k: nat, n: nat, r: nat, w: nat, fd: nat)
    requires 0 in base && 1 in base && Unused(base, all) && k < |all| == n - 1
    requires r == all[k] && fd == if k == 0 then 0 else all[k - 1]
    requires w !in Inherited(base, all[..k]) && w != r
    ensures var forked := Inherited(base, all[..k])[r := ReadEnd(k)][w := WriteEnd(k)] - {r};
      && fd in forked && w in Moved(forked, fd, 0)
      && Moved(Moved(forked, fd, 0), w, 1) == CommandTable(base, all, k, n)
  {
    hide Inherited, Moved;
    UnusedPrefix(base, all, k);
    var before := Inherited(base, all[..k]);
    InheritedIs(base, all[..k]);
    assert fd in before && r !in before && w != fd && r != fd && 1 != w && 0 != w && fd != 1;
    assert k > 0 ==> fd != 0 && before[fd] == ReadEnd(k - 1);
    hide Unused;
    ChildMap(before, fd, r, w, k);
    assert k == 0 ==> before - {} == before;
  }

  /** Before the pipeline starts no descriptor refers to one of its pipes. */
  ghost predicate Outside(base: Table) {
    forall d :: d in base ==> base[d].Opened?
  }

  /** Each command reads from the pipe its predecessor writes to, the first from the original
      input and the last to the original output. The write end of a pipe is open in no
      command but its writer, and there only as descriptor 1. */
  lemma Wired(base: Table, ends: seq<nat>, i: nat, n: nat)
    requires 0 in base && 1 in base && Outside(base) && Unused(base, ends)
    requires i < n == |ends| + 1
    ensures var table := CommandTable(base, ends, i, n);
      && 0 in table && table[0] == (if i == 0 then base[0] else ReadEnd(i - 1))
      && 1 in table && table[1] == (if i + 1 == n then base[1] else WriteEnd(i))
      && (forall d, j :: d in table && table[d] == WriteEnd(j) ==> d == 1 && j == i && i + 1 < n)
      && (forall d :: d in base && d != 0 && d != 1 ==> d in table && table[d] == base[d])
  {
    UnusedPrefix(base, ends, i);
    InheritedIs(base, ends[..i]);
  }

  /** The read ends are not exclusive: command `i` has those of all earlier pipes open, not
      only that of its own input, because the parent never closes them. */
  lemma ReadEndsInherited(base: Table, ends: seq<nat>, i: nat, n: nat, j: nat)
    requires 0 in base && 1 in base && Outside(base) && Unused(base, ends)
    requires i < n == |ends| + 1
    ensures (exists d :: d in CommandTable(base, ends, i, n) && CommandTable(base, ends, i, n)[d] == ReadEnd(j))
       <==> j < i
  {
    UnusedPrefix(base, ends, i);
    InheritedIs(base, ends[..i]);
    var table := CommandTable(base, ends, i, n);
    if j + 1 < i {
      assert ends[..i][j] == ends[j];
      assert ends[j] in table && table[ends[j]] == ReadEnd(j);
    } else if j + 1 == i {
      assert table[0] == ReadEnd(j);
    }
    forall d | d in table && table[d] == ReadEnd(j) ensures j < i {
      if d != 0 && d != 1 {
        assert d in ends[..i];
      }
    }
  }

  class Process {
    const ledger: Ledger
    var fds: Table

    constructor (ledger: Ledger, fds: Table)
      ensures this.ledger == ledger && this.fds == fds
    {
      this.ledger, this.fds := ledger, fds;
    }

    /** Any two unused descriptors. */
    method Pipe() returns (r: nat, w: nat)
      modifies `fds, ledger`pipes
      ensures r !in old(fds) && w !in old(fds) && r != w
      ensures fds == old(fds)[r := ReadEnd(old(ledger.pipes))][w := WriteEnd(old(ledger.pipes))]
      ensures ledger.pipes == old(ledger.pipes) + 1
    {
      r := 0;
      var keys := fds.Keys;
      while keys != {}
        invariant keys <= fds.Keys
        invariant forall d :: d in fds.Keys && d !in keys ==> d < r
        decreases |keys|
      {
        var d :| d in keys;
        if r <= d {
          r := d + 1;
        }
        keys := keys - {d};
      }
      w := r + 1;
      fds := fds[r := ReadEnd(ledger.pipes)][w := WriteEnd(ledger.pipes)];
      ledger.pipes := ledger.pipes + 1;
    }

    method Fork() returns (child: Process)
      ensures fresh(child) && child.ledger == ledger && child.fds == fds
    {
      child := new Process(ledger, fds);
    }

    method Close(fd: nat)
      modifies `fds
      ensures fds == old(fds) - {fd}
    {
      fds := fds - {fd};
    }

    method Dup2(oldFd: nat, newFd: nat)
      requires oldFd in fds
      modifies `fds
      ensures fds == old(fds)[newFd := old(fds)[oldFd]]
    {
      fds := fds[newFd := fds[oldFd]];
    }

    method Duplicate(oldFd: nat, newFd: nat)
      requires oldFd in fds
      modifies `fds
      ensures fds == Moved(old(fds), oldFd, newFd)
    {
      if oldFd != newFd {
        Dup2(oldFd, newFd);
        Close(oldFd);
      }
    }

    method ExecuteBinary(command: nat)
      modifies ledger`started
      ensures ledger.started == old(ledger.started) + [Started(command, fds)]
    {
      ledger.started := ledger.started + [Started(command, fds)];
    }

    /** Forks a child that reads from `fd` and writes to `w`, and runs a command in it. */
    method StartChild(command: nat, r: nat, w: nat, fd: nat)
      requires fd in fds && w in fds && fd != r && w != r && w != fd && w != 0
      modifies ledger`started
      ensures ledger.started
           == old(ledger.started) + [Started(command, Moved(Moved(fds - {r}, fd, 0), w, 1))]
    {
      var child := Fork();
      child.Close(r);
      child.Duplicate(fd, 0);
      child.Duplicate(w, 1);
      child.ExecuteBinary(command);
    }

    /** Starts the commands from `k` on. `ends[j]` is the descriptor of the read end of pipe j:
        the parent keeps every one of them open. */
    method RunPiping(n: nat, k: nat, fd: nat, ghost base: Table, ghost ends: seq<nat>) returns (ghost all: seq<nat>)
      requires k < n && |ends| == k == ledger.pipes
      requires 0 in base && 1 in base && Unused(base, ends)
      requires fds == Inherited(base, ends) && fd == if k == 0 then 0 else ends[k - 1]
      modifies this, ledger
      ensures |all| == n - 1 && ends <= all && Unused(base, all)
      ensures ledger.started == old(ledger.started) + Wiring(base, all, k, n)
      decreases n - k
    {
      hide Inherited, CommandTable, Wiring;
      InheritedIs(base, ends);
      if k + 1 == n {
        all := ends;
        LastTable(base, ends, n, fd);
        WiringStep(base, all, k, n);
        Duplicate(fd, 0);
        ExecuteBinary(k);
      } else {
        var r, w := Pipe();
        ghost var more := ends + [r];
        GrowInherited(base, ends, r);
        StartChild(k, r, w, fd);
        Close(w);
        assert fds == Inherited(base, more);
        all := RunPiping(n, k + 1, r, base, more);
        assert all[..k] == ends;
        ChildTable(base, all, k, n, r, w, fd);
        WiringStep(base, all, k, n);
      }
    }
  }

  /** The shell forks once and the child wires up the pipeline. Each command reads from the
      pipe that its predecessor writes to, the first from the original input, and the last
      writes to the original output. The write end of a pipe is open in no command but its
      writer, and there only as descriptor 1, so the reader meets the end of the file when the
      writer is done. The shell's own descriptors are untouched. */
  method ExecutePipeline(shell: Process, n: nat)
    requires 0 < n && 0 in shell.fds && 1 in shell.fds && Outside(shell.fds)
    requires shell.ledger.pipes == 0 && shell.ledger.started == []
    modifies shell.ledger
    ensures shell.fds == old(shell.fds)
    ensures |shell.ledger.started| == n
    ensures forall i :: 0 <= i < n ==>
      var table := shell.ledger.started[i].table;
      && shell.ledger.started[i].command == i
      && 0 in table && table[0] == (if i == 0 then shell.fds[0] else ReadEnd(i - 1))
      && 1 in table && table[1] == (if i + 1 == n then shell.fds[1] else WriteEnd(i))
    ensures forall i, d, j ::
      0 <= i < n && d in shell.ledger.started[i].table && shell.ledger.started[i].table[d] == WriteEnd(j) ==>
        d == 1 && j == i && i + 1 < n
    ensures forall i, d :: 0 <= i < n && d in shell.fds && d != 0 && d != 1 ==>
      d in shell.ledger.started[i].table && shell.ledger.started[i].table[d] == shell.fds[d]
  {
    var child := shell.Fork();
    ghost var ends := child.RunPiping(n, 0, 0, shell.fds, []);
    forall i | 0 <= i < n {
      Wired(shell.fds, ends, i, n);
    }
    hide CommandTable, Inherited;
    assert shell.ledger.started == Wiring(shell.fds, ends, 0, n);
  }
}
