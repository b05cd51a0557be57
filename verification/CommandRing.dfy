/** The ring buffer of the last commands, which is printed when a rank does not answer. */
module CommandRing {
  import opened Arithmetic

  /** A command: its direction, and one word for every control interface. */
  datatype Command = Command(direction: char, data: seq<nat>)

  /** The place in a ring of `n` of the `i`-th command of a history. */
  function Place(i: nat, n: nat): (p: nat)
    requires 0 < n
    ensures p < n
  {
    i % n
  }

  lemma PlaceNext(i: nat, n: nat)
    requires 0 < n
    ensures Place(i + 1, n) == if Place(i, n) + 1 == n then 0 else Place(i, n) + 1
  {
    var q, r := i / n, i % n;
    assert i == q * n + r;
    if r + 1 == n {
      assert (q + 1) * n == q * n + n;
      DivModUnique(i + 1, n, q + 1, 0);
    } else {
      DivModUnique(i + 1, n, q, r + 1);
    }
  }

  lemma PlaceBack(i: nat, n: nat)
    requires 0 < n <= i
    ensures Place(i - n, n) == Place(i, n)
  {
    var q, r := i / n, i % n;
    assert i == q * n + r;
    assert (q - 1) * n == q * n - n;
    DivModUnique(i - n, n, q - 1, r);
  }

  /** Commands that are less than `n` apart have different places. */
  lemma PlacesDiffer(i: nat, j: nat, n: nat)
    requires i < j < i + n
    ensures Place(i, n) != Place(j, n)
  {
    var p, q := i / n, j / n;
    assert i == p * n + i % n && j == q * n + j % n;
    MulGap(p, q, n);
    MulGap(q, p, n);
  }

  lemma PlaceSmall(i: nat, n: nat)
    requires 0 < n
    ensures i <= n ==> Place(i, n) == if i == n then 0 else i
  {
  }

  /** The last `n` commands of a history, oldest first. */
  function Last(history: seq<Command>, n: nat): seq<Command> {
    history[|history| - Min(n, |history|)..]
  }

  lemma LastAt(history: seq<Command>, n: nat, i: nat)
    requires i < |Last(history, n)|
    ensures |Last(history, n)| == (if |history| < n then |history| else n)
    ensures Last(history, n)[i] == history[|history| - |Last(history, n)| + i]
  {
  }

  /** An unbounded history of commands, of which an array keeps the last ones. */
  class Ring {
    const cmds: array<Command>
    var idxLast: nat
    var nb: nat
    var hasWrapped: bool
    ghost var history: seq<Command>

    ghost predicate Valid()
      reads this, cmds
    {
      && 0 < cmds.Length
      && nb == Min(cmds.Length, |history|) && (hasWrapped <==> cmds.Length <= |history|)
      && idxLast == Place(|history|, cmds.Length)
      && forall i: nat | |history| - nb <= i < |history| :: cmds[Place(i, cmds.Length)] == history[i]
    }

    constructor (size: nat, blank: Command)
      requires 0 < size
      ensures Valid() && fresh(cmds) && cmds.Length == size && history == []
    {
      cmds := new Command[size](_ => blank);
      idxLast, nb, hasWrapped, history := 0, 0, false, [];
    }

    /** Records a command, if commands are logged at all. */
    method Record(enabled: bool, c: Command)
      requires Valid()
      modifies this, cmds
      ensures Valid()
      ensures history == if enabled then old(history) + [c] else old(history)
    {
      if !enabled { return; }
      var size := cmds.Length;
      ghost var n := |history|;
      forall i: nat | n - nb <= i < n && n < i + size
        ensures Place(i, size) != idxLast
      {
        PlacesDiffer(i, n, size);
      }
      PlaceNext(n, size);
      PlaceSmall(n, size);
      PlaceSmall(idxLast + 1, size);
      hide Place;
      cmds[idxLast] := c;
      idxLast := idxLast + 1;
      if !hasWrapped {
        if idxLast >= size {
          hasWrapped := true;
          nb := size;
        } else {
          nb := nb + 1;
        }
      }
      idxLast := Place(idxLast, size);
      history := history + [c];
    }

    /** Goes through the buffer as the dump does: the last commands appear, in the order in which they were issued. */
    method Dump() returns (shown: seq<Command>)
      requires Valid()
      ensures shown == Last(history, cmds.Length)
      ensures |shown| == if |history| < cmds.Length then |history| else cmds.Length
      ensures forall i: nat | i < |shown| :: shown[i] == history[|history| - |shown| + i]
    {
      var size := cmds.Length;
      var idx := if hasWrapped then idxLast else 0;
      ghost var first := |history| - nb;
      shown := [];
      if hasWrapped {
        PlaceBack(|history|, size);
      }
      PlaceSmall(0, size);
      hide Place;
      var k := 0;
      while k < nb
        invariant k <= nb && shown == history[first..first + k]
        invariant k < nb ==> idx == Place(first + k, size)
      {
        shown := shown + [cmds[idx]];
        PlaceNext(first + k, size);
        PlaceSmall(idx + 1, size);
        idx, k := Place(idx + 1, size), k + 1;
      }
      assert shown == Last(history, size);
      forall i: nat | i < |shown|
        ensures shown[i] == history[|history| - |shown| + i]
      {
        LastAt(history, size, i);
      }
    }
  }
}
