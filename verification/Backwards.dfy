/** Reading a sequence backwards, from somewhere near its end, out of stretches of it. */
module Backwards {
  function Reversed<T>(s: seq<T>): (r: seq<T>)
    ensures |r| == |s|
    ensures forall i :: 0 <= i < |s| ==> r[i] == s[|s| - 1 - i]
  {
    if s == [] then [] else [s[|s| - 1]] + Reversed(s[..|s| - 1])
  }

  /** The first `n` of `messages` stand in `all` from position `base` on. */
  ghost predicate SliceAt<T>(all: seq<T>, base: int, messages: seq<T>, n: nat) {
    && 0 <= base && base + n <= |all| && n <= |messages|
    && forall j {:trigger messages[j]} :: 0 <= j < n ==> all[base + j] == messages[j]
  }

  /** `out` is `all` read backwards, from the message `start` places before the newest. */
  ghost predicate ReadsBack<T>(all: seq<T>, start: nat, out: seq<T>) {
    && start + |out| <= |all|
    && forall j :: 0 <= j < |out| ==> out[j] == all[|all| - 1 - start - j]
  }

  lemma ReadsBackIsSlice<T>(all: seq<T>, start: nat, out: seq<T>)
    requires ReadsBack(all, start, out)
    ensures out == Reversed(all)[start..start + |out|]
  {
  }

  /** Copying a stretch downwards reads on backwards. */
  lemma ReadsOn<T>(all: seq<T>, start: nat, out: seq<T>, more: seq<T>, messages: seq<T>, top: int, base: int)
    requires ReadsBack(all, start, out) && out <= more && |more| - |out| <= top + 1 <= |messages|
    requires base + top == |all| - 1 - start - |out|
    requires exists n :: top < n && SliceAt(all, base, messages, n)
    requires forall j :: |out| <= j < |more| ==> more[j] == messages[top - (j - |out|)]
    ensures ReadsBack(all, start, more)
  {
    forall j | 0 <= j < |more|
      ensures more[j] == all[|all| - 1 - start - j]
    {
      if j >= |out| {
        assert more[j] == messages[top - (j - |out|)];
      } else {
        assert more[j] == out[j];
      }
    }
  }

  /** Copies slots `top`, `top - 1`, ..., 0 of a sector behind `out`, up to `n` messages in all. */
  method CopyDown<T>(messages: seq<T>, top: int, n: nat, out: seq<T>) returns (more: seq<T>)
    requires -1 <= top < |messages| && |out| <= n
    ensures out <= more && |more| == if |out| + top + 1 < n then |out| + top + 1 else n
    ensures forall j :: |out| <= j < |more| ==> more[j] == messages[top - (j - |out|)]
  {
    more := out;
    var slot := top;
    while slot >= 0 && |more| < n
      invariant -1 <= slot <= top && |more| == |out| + (top - slot) <= n
      invariant out <= more
      invariant forall j :: |out| <= j < |more| ==> more[j] == messages[top - (j - |out|)]
    {
      more := more + [messages[slot]];
      slot := slot - 1;
    }
  }
}
