/**
  The command history behind the terminal (src/hooks/useTerminalHistory.ts):
  a log of submitted commands, oldest first, capped at the newest 50, with
  consecutive repeats coalesced, and a navigation cursor where -1 means
  "not navigating", 0 the most recent entry and larger values older ones.
*/
module TerminalHistory {

  /** How many commands the log keeps (`slice(-50)`). */
  const MaxEntries: nat := 50

  /**
    `s.slice(-n)` for `n > 0`: the last `n` elements of `s`, or all of `s` when it is shorter.
    (JavaScript's `slice(-0)` keeps everything; only `n = 50` is used.)
  */
  function LastN(s: seq<string>, n: nat): (r: seq<string>)
    requires n > 0
    ensures |r| == if |s| < n then |s| else n
    ensures r == s[|s| - |r|..]
  {
    if |s| <= n then s else s[|s| - n..]
  }

  /** `r` is a suffix of `s`. */
  predicate IsSuffix(r: seq<string>, s: seq<string>) {
    |r| <= |s| && s[|s| - |r|..] == r
  }

  /** `prev[prev.length - 1] === command`; on an empty log the left side is `undefined`. */
  predicate RepeatsLast(prev: seq<string>, command: string) {
    |prev| > 0 && prev[|prev| - 1] == command
  }

  /** The log after `addToHistory(command)`. */
  function Added(prev: seq<string>, command: string): (r: seq<string>)
    ensures RepeatsLast(prev, command) ==> r == prev
    ensures !RepeatsLast(prev, command) ==>
      IsSuffix(r, prev + [command]) &&
      |r| == (if |prev| + 1 < MaxEntries then |prev| + 1 else MaxEntries) &&
      r[|r| - 1] == command
  {
    if RepeatsLast(prev, command) then prev else LastN(prev + [command], MaxEntries)
  }

  /** The log never grows past the cap, never shrinks, and always ends with the command just added. */
  lemma AddedBounded(prev: seq<string>, command: string)
    requires |prev| <= MaxEntries
    ensures |prev| <= |Added(prev, command)| <= MaxEntries
    ensures |Added(prev, command)| > 0 && Added(prev, command)[|Added(prev, command)| - 1] == command
    ensures IsSuffix(Added(prev, command), prev + [command]) || Added(prev, command) == prev
  {
  }

  /** Submitting the same command twice in a row records it once. */
  lemma AddedTwice(prev: seq<string>, command: string)
    ensures Added(Added(prev, command), command) == Added(prev, command)
  {
  }

  /** Taking the last `n` of a sequence and then extending it agrees with extending first. */
  lemma LastNAppend(x: seq<string>, y: seq<string>, n: nat)
    requires n > 0
    ensures LastN(LastN(x, n) + y, n) == LastN(x + y, n)
  {
    var a := LastN(x, n) + y;
    var b := x + y;
    assert IsSuffix(a, b) by {
      assert b[|b| - |a|..] == b[|x| - |LastN(x, n)|..];
      assert x[|x| - |LastN(x, n)|..] + y == a;
      assert b[|x| - |LastN(x, n)|..] == x[|x| - |LastN(x, n)|..] + y;
    }
    var ra := LastN(a, n);
    var rb := LastN(b, n);
    assert |ra| == |rb|;
    assert ra == a[|a| - |ra|..] == b[|b| - |rb|..];
  }

  /** The log after `addToHistory` is called with each of `commands` in turn. */
  function AddAll(prev: seq<string>, commands: seq<string>): seq<string>
    decreases |commands|
  {
    if commands == [] then prev else AddAll(Added(prev, commands[0]), commands[1..])
  }

  /** No two neighbouring commands are equal. */
  predicate NoRepeats(commands: seq<string>) {
    forall k :: 0 < k < |commands| ==> commands[k - 1] != commands[k]
  }

  /**
    Commands without consecutive repeats are all recorded, in order, and only the
    oldest entries beyond the cap are dropped: the log is the last 50 of everything.
  */
  lemma {:induction false} AddAllKeepsNewest(prev: seq<string>, commands: seq<string>)
    requires NoRepeats(commands)
    requires commands != [] ==> !RepeatsLast(prev, commands[0])
    requires |prev| <= MaxEntries
    ensures AddAll(prev, commands) == LastN(prev + commands, MaxEntries)
    decreases |commands|
  {
    if commands == [] {
      assert prev + commands == prev;
    } else {
      var next := Added(prev, commands[0]);
      var rest := commands[1..];
      assert next == LastN(prev + [commands[0]], MaxEntries);
      assert rest != [] ==> !RepeatsLast(next, rest[0]) by {
        if rest != [] { assert commands[0] != commands[1]; }
      }
      assert NoRepeats(rest) by {
        forall k | 0 < k < |rest| ensures rest[k - 1] != rest[k] {
          assert rest[k - 1] == commands[k] && rest[k] == commands[k + 1];
        }
      }
      AddAllKeepsNewest(next, rest);
      LastNAppend(prev + [commands[0]], rest, MaxEntries);
      assert prev + [commands[0]] + rest == prev + commands;
    }
  }

  /** Repeated submissions are coalesced: `a, b, b, c` leaves the log `a, b, c`. */
  lemma CoalescesRepeats()
    ensures AddAll([], ["a", "b", "b", "c"]) == ["a", "b", "c"]
  {
    assert Added([], "a") == ["a"];
    assert Added(["a"], "b") == ["a", "b"];
    assert RepeatsLast(["a", "b"], "b");
    assert Added(["a", "b"], "c") == ["a", "b", "c"];
    assert AddAll([], ["a", "b", "b", "c"]) == AddAll(["a"], ["b", "b", "c"]);
    assert AddAll(["a"], ["b", "b", "c"]) == AddAll(["a", "b"], ["b", "c"]);
    assert AddAll(["a", "b"], ["b", "c"]) == AddAll(["a", "b"], ["c"]);
    assert AddAll(["a", "b"], ["c"]) == AddAll(["a", "b", "c"], []);
  }

  /** On a full log, a new command drops exactly the oldest entry. */
  lemma FullLogDropsOldest(prev: seq<string>, command: string)
    requires |prev| == MaxEntries && !RepeatsLast(prev, command)
    ensures Added(prev, command) == prev[1..] + [command]
  {
  }

  datatype Direction = Up | Down

  /** A cursor position for a log of `len` entries; only -1 when the log is empty. */
  predicate InRange(index: int, len: nat) {
    -1 <= index <= len - 1
  }

  /**
    The cursor after `navigateHistory(direction)` on a log of `len` entries:
    up goes one entry older but not past the oldest, down one entry newer but not below -1.
  */
  function Navigated(index: int, len: nat, direction: Direction): (r: int)
    ensures InRange(index, len) ==> InRange(r, len)
    ensures direction == Up ==> (r == index + 1 || r == len - 1) && r <= index + 1 && r <= len - 1
    ensures direction == Down ==> (r == index - 1 || r == -1) && r >= index - 1 && r >= -1
  {
    match direction
    case Up => if index + 1 < len - 1 then index + 1 else len - 1
    case Down => if index - 1 > -1 then index - 1 else -1
  }

  /** The cursor after a sequence of presses. */
  function NavigatedAll(index: int, len: nat, presses: seq<Direction>): int
    decreases |presses|
  {
    if presses == [] then index else NavigatedAll(Navigated(index, len, presses[0]), len, presses[1..])
  }

  function Repeat(direction: Direction, n: nat): seq<Direction>
  {
    seq(n, _ => direction)
  }

  lemma {:induction false} NavigatedAllAppend(index: int, len: nat, a: seq<Direction>, b: seq<Direction>)
    ensures NavigatedAll(index, len, a + b) == NavigatedAll(NavigatedAll(index, len, a), len, b)
    decreases |a|
  {
    if a == [] {
      assert a + b == b;
    } else {
      assert (a + b)[1..] == a[1..] + b;
      NavigatedAllAppend(Navigated(index, len, a[0]), len, a[1..], b);
    }
  }

  /** `n` presses of up from a cursor in range stop at the oldest entry. */
  lemma {:induction false} Ups(index: int, len: nat, n: nat)
    requires InRange(index, len)
    ensures NavigatedAll(index, len, Repeat(Up, n)) == if index + n < len - 1 then index + n else (if len == 0 then -1 else len - 1)
    decreases n
  {
    if n > 0 {
      assert Repeat(Up, n)[1..] == Repeat(Up, n - 1);
      Ups(Navigated(index, len, Up), len, n - 1);
    }
  }

  /** `n` presses of down stop at -1. */
  lemma {:induction false} Downs(index: int, len: nat, n: nat)
    requires index >= -1
    ensures NavigatedAll(index, len, Repeat(Down, n)) == if index - n > -1 then index - n else -1
    decreases n
  {
    if n > 0 {
      assert Repeat(Down, n)[1..] == Repeat(Down, n - 1);
      Downs(Navigated(index, len, Down), len, n - 1);
    }
  }

  /** From -1, any number of presses of up followed by as many of down comes back to -1. */
  lemma UpsThenDowns(len: nat, n: nat)
    ensures NavigatedAll(-1, len, Repeat(Up, n) + Repeat(Down, n)) == -1
  {
    NavigatedAllAppend(-1, len, Repeat(Up, n), Repeat(Down, n));
    Ups(-1, len, n);
    Downs(NavigatedAll(-1, len, Repeat(Up, n)), len, n);
  }

  /** The entry a cursor in range designates: none at -1, otherwise counted back from the newest. */
  function CommandAt(entries: seq<string>, index: int): (r: string)
    requires -1 <= index < |entries|
    ensures index == -1 ==> r == ""
    ensures index >= 0 ==> r in entries
    ensures index == 0 ==> r == entries[|entries| - 1]
  {
    if index == -1 then "" else entries[|entries| - 1 - index]
  }

  /** Right after a command is recorded, cursor 0 recalls it. */
  lemma NewestAtZero(prev: seq<string>, command: string)
    ensures 0 < |Added(prev, command)| && CommandAt(Added(prev, command), 0) == command
  {
  }

  /** Recalling with cursor `i` on an extended log gives the entry one further back. */
  lemma CommandAtOlder(entries: seq<string>, command: string, index: int)
    requires 0 <= index < |entries|
    ensures CommandAt(entries + [command], index + 1) == CommandAt(entries, index)
  {
  }

  /** The state of `useTerminalHistory`: the two cells `history` and `currentIndex`. */
  class History {
    var history: seq<string>
    var currentIndex: int

    ghost predicate Valid()
      reads this
    {
      |history| <= MaxEntries && InRange(currentIndex, |history|)
    }

    constructor ()
      ensures Valid() && history == [] && currentIndex == -1
    {
      history := [];
      currentIndex := -1;
    }

    method AddToHistory(command: string)
      requires Valid()
      modifies this
      ensures Valid()
      ensures history == Added(old(history), command)
      ensures currentIndex == old(currentIndex)
    {
      if |history| > 0 && history[|history| - 1] == command {
        return;
      }
      var extended := history + [command];
      history := LastN(extended, MaxEntries);
    }

    method NavigateHistory(direction: Direction)
      requires Valid()
      modifies this
      ensures Valid()
      ensures currentIndex == Navigated(old(currentIndex), |history|, direction)
      ensures history == old(history)
    {
      if direction == Up {
        currentIndex := if currentIndex + 1 < |history| - 1 then currentIndex + 1 else |history| - 1;
      } else {
        currentIndex := if currentIndex - 1 > -1 then currentIndex - 1 else -1;
      }
    }

    method ResetNavigation()
      requires Valid()
      modifies this
      ensures Valid()
      ensures currentIndex == -1 && history == old(history)
    {
      currentIndex := -1;
    }

    /** `getCurrentCommand()`: the entry under the cursor, `''` when not navigating. */
    function GetCurrentCommand(): (r: string)
      reads this
      requires Valid()
      ensures currentIndex == -1 ==> r == ""
      ensures currentIndex >= 0 ==> r == history[|history| - 1 - currentIndex]
    {
      CommandAt(history, currentIndex)
    }
  }
}
