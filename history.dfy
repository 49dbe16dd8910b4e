/**
 * The history manager: a bounded log of at most `cap` (MAX_HISTORY) lines,
 * oldest first, with empty-line rejection, suppression of a line equal to
 * the newest entry, and eviction of the oldest entry when the log is full.
 *
 * `Add` is the effect of one `add_to_history` call on the abstract log;
 * `HistoryLog` is the global `history` array and `history_count` counter,
 * updated in place, and its methods are proved against `Add`.
 */
module History {
  import opened Wrappers

  /** The invariant every reachable log satisfies: within capacity, no empty
      entry, and no entry equal to the one just before it. */
  ghost predicate WellFormed(log: seq<string>, cap: nat)
  {
    && |log| <= cap
    && (forall i :: 0 <= i < |log| ==> log[i] != [])
    && (forall i :: 0 <= i < |log| - 1 ==> log[i] != log[i + 1])
  }

  /** `add_to_history` goes past its two early returns: the command is a
      non-NULL, non-empty string that differs from the newest entry. */
  predicate Accepted(log: seq<string>, cmd: Option<string>)
  {
    cmd.Some? && cmd.value != [] && (log == [] || log[|log| - 1] != cmd.value)
  }

  /** One call of `add_to_history(cmd)`; `copyFails` says whether `strdup`
      returns NULL. A full log has already lost its oldest entry when the
      copy is attempted, so a failed copy on a full log still shrinks it. */
  function Add(log: seq<string>, cap: nat, cmd: Option<string>, copyFails: bool): (r: seq<string>)
    requires 0 < cap && |log| <= cap
    ensures |r| <= cap
  {
    if !Accepted(log, cmd) then log
    else
      var kept := if |log| == cap then log[1..] else log;
      if copyFails then kept else kept + [cmd.value]
  }

  /** A NULL or empty command leaves the log as it was. */
  lemma AddIgnoresEmpty(log: seq<string>, cap: nat, cmd: Option<string>, copyFails: bool)
    requires 0 < cap && |log| <= cap
    requires cmd.None? || cmd.value == []
    ensures Add(log, cap, cmd, copyFails) == log
  {
  }

  /** A command equal to the newest entry leaves the log as it was. */
  lemma AddSuppressesRepeat(log: seq<string>, cap: nat, copyFails: bool)
    requires 0 < cap && 0 < |log| <= cap
    ensures Add(log, cap, Some(log[|log| - 1]), copyFails) == log
  {
  }

  /** Only the newest entry is compared: a command that differs from it is
      stored even if it occurs earlier in the log. */
  lemma AddStoresRepeatAfterOther(log: seq<string>, cap: nat, i: nat)
    requires 0 < cap && |log| <= cap
    requires i < |log| - 1 && log[i] != [] && log[i] != log[|log| - 1]
    ensures var r := Add(log, cap, Some(log[i]), false);
      r != [] && r[|r| - 1] == log[i] && |r| == (if |log| == cap then cap else |log| + 1)
  {
  }

  /** Below capacity, an accepted command is appended: one more entry, the
      earlier entries untouched, the newest one equal to the command. */
  lemma AddAppends(log: seq<string>, cap: nat, cmd: Option<string>)
    requires 0 < cap && |log| < cap && Accepted(log, cmd)
    ensures var r := Add(log, cap, cmd, false);
      |r| == |log| + 1 && r[..|log|] == log && r[|log|] == cmd.value
  {
  }

  /** At capacity, an accepted command evicts the oldest entry: the new log is
      the old one without its first entry, with the command after the rest. */
  lemma AddEvictsOldest(log: seq<string>, cap: nat, cmd: Option<string>)
    requires 0 < cap && |log| == cap && Accepted(log, cmd)
    ensures var r := Add(log, cap, cmd, false);
      |r| == cap && r[..cap - 1] == log[1..] && r[cap - 1] == cmd.value
  {
  }

  /** A failed copy below capacity leaves the log unchanged; at capacity the
      oldest entry is already gone, so the log ends one entry short. */
  lemma AddCopyFailure(log: seq<string>, cap: nat, cmd: Option<string>)
    requires 0 < cap && |log| <= cap && Accepted(log, cmd)
    ensures |log| < cap ==> Add(log, cap, cmd, true) == log
    ensures |log| == cap ==> Add(log, cap, cmd, true) == log[1..] && |log[1..]| == cap - 1
  {
  }

  /** `Accepted` is exactly the condition under which a successful call
      changes the log: the two early returns are the only calls that do not. */
  lemma AddChangesIffAccepted(log: seq<string>, cap: nat, cmd: Option<string>)
    requires 0 < cap && |log| <= cap
    ensures Add(log, cap, cmd, false) != log <==> Accepted(log, cmd)
  {
    if Accepted(log, cmd) {
      var r := Add(log, cap, cmd, false);
      assert r[|r| - 1] == cmd.value;
    }
  }

  /** After a successful call on a non-empty command, the newest entry is that
      command: either it was stored, or it already was the newest entry. */
  lemma AddNewestIsCommand(log: seq<string>, cap: nat, c: string)
    requires 0 < cap && |log| <= cap && c != []
    ensures var r := Add(log, cap, Some(c), false); r != [] && r[|r| - 1] == c
  {
  }

  /** Every call keeps the log well formed. */
  lemma AddPreservesWellFormed(log: seq<string>, cap: nat, cmd: Option<string>, copyFails: bool)
    requires 0 < cap && WellFormed(log, cap)
    ensures WellFormed(Add(log, cap, cmd, copyFails), cap)
  {
    if Accepted(log, cmd) {
      var kept := if |log| == cap then log[1..] else log;
      assert kept != [] ==> kept[|kept| - 1] == log[|log| - 1];
      if !copyFails {
        var r := kept + [cmd.value];
        forall i | 0 <= i < |r| - 1 ensures r[i] != r[i + 1] {
          if i < |kept| - 1 {
            if |log| == cap { assert r[i] == log[i + 1] && r[i + 1] == log[i + 2]; }
          }
        }
      }
    }
  }

  /** The log after a run of successful calls, one per line of `cmds`. */
  function AddAll(log: seq<string>, cap: nat, cmds: seq<string>): (r: seq<string>)
    requires 0 < cap && |log| <= cap
    ensures |r| <= cap
    decreases |cmds|
  {
    if cmds == [] then log
    else Add(AddAll(log, cap, cmds[..|cmds| - 1]), cap, Some(cmds[|cmds| - 1]), false)
  }

  /** Lines that the history keeps one by one: none empty, none equal to the
      line before it. */
  ghost predicate DistinctNeighbours(cmds: seq<string>)
  {
    && (forall i :: 0 <= i < |cmds| ==> cmds[i] != [])
    && (forall i :: 0 <= i < |cmds| - 1 ==> cmds[i] != cmds[i + 1])
  }

  function Min(a: nat, b: nat): nat { if a < b then a else b }

  /** Starting from an empty log, a run of lines none of which repeats its
      predecessor leaves exactly the `cap` newest lines, oldest first. */
  lemma {:induction false} AddAllKeepsNewest(cap: nat, cmds: seq<string>)
    requires 0 < cap && DistinctNeighbours(cmds)
    ensures AddAll([], cap, cmds) == cmds[|cmds| - Min(cap, |cmds|)..]
    decreases |cmds|
  {
    if cmds != [] {
      var n := |cmds|;
      var prefix := cmds[..n - 1];
      assert DistinctNeighbours(prefix);
      AddAllKeepsNewest(cap, prefix);
      var before := AddAll([], cap, prefix);
      assert before == prefix[|prefix| - Min(cap, |prefix|)..];
      assert before != [] ==> before[|before| - 1] == cmds[n - 2];
      assert Accepted(before, Some(cmds[n - 1]));
      if |before| == cap {
        assert before[1..] + [cmds[n - 1]] == cmds[n - cap..];
      } else {
        assert before + [cmds[n - 1]] == cmds[n - Min(cap, n)..];
      }
    }
  }

  /** With MAX_HISTORY + 1 such lines, the oldest line has been evicted: the
      log is full and starts with the second line. */
  lemma OverflowEvictsFirst(cap: nat, cmds: seq<string>)
    requires 0 < cap && |cmds| == cap + 1 && DistinctNeighbours(cmds)
    ensures var r := AddAll([], cap, cmds); |r| == cap && r[0] == cmds[1]
  {
    AddAllKeepsNewest(cap, cmds);
  }

  /** With MAX_HISTORY = 2, the lines "a", "b", "c" leave ["b", "c"]. */
  lemma SmallCapacityExample()
    ensures AddAll([], 2, ["a", "b", "c"]) == ["b", "c"]
  {
    AddAllKeepsNewest(2, ["a", "b", "c"]);
  }

  /**
   * The global history state: `slots` is the `history` array (None for a
   * NULL pointer) and `count` is `history_count`. The ghost `Log` is the
   * ordered list of stored lines.
   */
  class HistoryLog {
    const cap: nat
    const slots: array<Option<string>>
    var count: nat
    ghost var Log: seq<string>

    ghost predicate Valid()
      reads this, slots
    {
      && 0 < cap
      && slots.Length == cap
      && count <= cap
      && |Log| == count
      && (forall i :: 0 <= i < count ==> slots[i] == Some(Log[i]))
      && WellFormed(Log, cap)
    }

    /** The zero-initialised global array: every slot NULL, count 0. */
    constructor (cap: nat)
      requires 0 < cap
      ensures Valid() && fresh(slots)
      ensures this.cap == cap && Log == []
      ensures forall i :: 0 <= i < cap ==> slots[i] == None
    {
      this.cap := cap;
      slots := new Option<string>[cap](_ => None);
      count := 0;
      Log := [];
    }

    /** `add_to_history(cmd)`, with the outcome of `strdup` given by `copyFails`. */
    method AddToHistory(cmd: Option<string>, copyFails: bool)
      requires Valid()
      modifies this, slots
      ensures Valid()
      ensures Log == Add(old(Log), cap, cmd, copyFails)
      ensures copyFails && Accepted(old(Log), cmd) ==> count < cap && slots[count] == None
    {
      AddPreservesWellFormed(Log, cap, cmd, copyFails);
      if cmd.None? || |cmd.value| == 0 {
        return;
      }
      if count > 0 && slots[count - 1].value == cmd.value {
        return;
      }
      if count == cap {
        // Shift every entry one place toward the front; the oldest is lost.
        var i := 0;
        while i < cap - 1
          modifies slots
          invariant 0 <= i <= cap - 1
          invariant forall j :: 0 <= j < i ==> slots[j] == old(slots[j + 1])
          invariant forall j :: i <= j < cap ==> slots[j] == old(slots[j])
        {
          slots[i] := slots[i + 1];
          i := i + 1;
        }
        count := count - 1;
        Log := Log[1..];
      }
      var copy: Option<string> := if copyFails then None else Some(cmd.value);
      slots[count] := copy;
      if copy.None? {
        return;
      }
      count := count + 1;
      Log := Log + [cmd.value];
    }

    /** `free_history()`: every used slot becomes NULL and the count 0; the
        slots past the old count are not touched. */
    method FreeHistory()
      requires Valid()
      modifies this, slots
      ensures Valid() && Log == [] && count == 0
      ensures forall i :: 0 <= i < old(count) ==> slots[i] == None
      ensures forall i :: old(count) <= i < cap ==> slots[i] == old(slots[i])
    {
      var i := 0;
      while i < count
        modifies slots
        invariant 0 <= i <= count <= cap
        invariant forall j :: 0 <= j < i ==> slots[j] == None
        invariant forall j :: i <= j < cap ==> slots[j] == old(slots[j])
      {
        slots[i] := None;
        i := i + 1;
      }
      count := 0;
      Log := [];
    }
  }
}
