/** The undo stack: a list of `("copy", src, dest)` records with a length cap. */
module UndoLedger {
  import opened SortedTree

  /** `("copy", src, dest)`; the only action the program records. */
  datatype Action = Copy(src: FilePath, dest: FilePath)

  /** The last `cap` elements of `s` (all of `s` when it is shorter). */
  function LastN<T>(s: seq<T>, cap: nat): seq<T> {
    if |s| <= cap then s else s[|s| - cap..]
  }

  /** `undo_stack.append(a)`, then `undo_stack.pop(0)` once if the length exceeds `cap`. */
  function Push(stack: seq<Action>, a: Action, cap: nat): (r: seq<Action>)
    ensures |stack| <= cap ==> |r| <= cap
    ensures |stack| < cap ==> r == stack + [a]
    ensures 0 < |stack| == cap ==> r == stack[1..] + [a]
    ensures |stack| <= cap ==> r == LastN(stack + [a], cap)
  {
    var s := stack + [a];
    if |s| > cap then s[1..] else s
  }

  /** Pushing several actions, oldest first. */
  function PushAll(stack: seq<Action>, actions: seq<Action>, cap: nat): seq<Action>
    decreases |actions|
  {
    if actions == [] then stack else PushAll(Push(stack, actions[0], cap), actions[1..], cap)
  }

  /** The last `m` elements of `p + u` are those of `u` when `u` has at least `m`. */
  lemma SuffixOfConcat<T>(p: seq<T>, u: seq<T>, m: nat)
    requires m <= |u|
    ensures (p + u)[|p + u| - m..] == u[|u| - m..]
  {
    var a, b := (p + u)[|p + u| - m..], u[|u| - m..];
    forall i | 0 <= i < m
      ensures a[i] == b[i]
    {
      assert a[i] == (p + u)[|p| + (|u| - m + i)];
    }
  }

  lemma LastNOfLastN<T>(s: seq<T>, t: seq<T>, cap: nat)
    ensures LastN(LastN(s, cap) + t, cap) == LastN(s + t, cap)
  {
    if |s| > cap {
      var k := |s| - cap;
      var u := s[k..] + t;
      assert LastN(s, cap) + t == u;
      assert s + t == s[..k] + u;
      SuffixOfConcat(s[..k], u, cap);
      assert u[|u| - cap..] == LastN(u, cap) by {
        if |u| == cap {
          assert u[0..] == u;
        }
      }
      assert LastN(s + t, cap) == (s + t)[|s + t| - cap..];
    }
  }

  /** One push, followed by the rest, keeps the same latest `cap` records as pushing everything at once. */
  lemma PushThenLatest(stack: seq<Action>, a: Action, rest: seq<Action>, cap: nat)
    requires |stack| <= cap
    ensures LastN(Push(stack, a, cap) + rest, cap) == LastN(stack + ([a] + rest), cap)
  {
    LastNOfLastN(stack + [a], rest, cap);
    assert stack + [a] + rest == stack + ([a] + rest);
  }

  /**
   * However many actions are pushed onto a stack that respects the cap, the
   * stack holds exactly the most recent `cap` of everything pushed, in push
   * order: older entries are gone for good.
   */
  lemma {:induction false} PushAllKeepsLatest(stack: seq<Action>, actions: seq<Action>, cap: nat)
    requires |stack| <= cap
    ensures PushAll(stack, actions, cap) == LastN(stack + actions, cap)
    decreases |actions|
  {
    if actions != [] {
      var a, rest := actions[0], actions[1..];
      assert actions == [a] + rest;
      PushAllKeepsLatest(Push(stack, a, cap), rest, cap);
      PushThenLatest(stack, a, rest, cap);
    }
  }

  /** Popping right after a push returns the pushed action; the rest is the old stack, minus its oldest entry if the cap was reached. */
  lemma PopAfterPush(stack: seq<Action>, a: Action, cap: nat)
    requires 0 < cap && |stack| <= cap
    ensures var r := Push(stack, a, cap);
      r != [] && r[|r| - 1] == a &&
      r[..|r| - 1] == if |stack| < cap then stack else stack[1..]
  {
  }
}
