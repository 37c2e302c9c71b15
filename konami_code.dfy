/**
  Konami-code easter egg.

  Every `keydown` on the document appends the key's name to a buffer and keeps
  only the buffer's last ten entries (the length of the pattern). The easter
  egg fires when the buffer's entries, concatenated without separator, spell
  the pattern's entries concatenated the same way: the comparison is on the
  joined strings, not entry by entry.
 */
module Konami {

  /** The key names of the Konami code, in order. */
  const Pattern: seq<string> :=
    ["ArrowUp", "ArrowUp", "ArrowDown", "ArrowDown", "ArrowLeft",
     "ArrowRight", "ArrowLeft", "ArrowRight", "b", "a"]

  /** The key names that occur in the pattern. */
  const PatternKeys: set<string> := {"ArrowUp", "ArrowDown", "ArrowLeft", "ArrowRight", "b", "a"}

  /** The entries concatenated with the empty separator. */
  function Join(keys: seq<string>): string {
    if keys == [] then "" else keys[0] + Join(keys[1..])
  }

  /** The last `n` entries of `keys`, or all of them when there are fewer:
      what `keys.slice(-n)` returns for a positive `n`. */
  function LastKeys(keys: seq<string>, n: nat): (r: seq<string>)
    requires n > 0
    ensures |r| == if |keys| < n then |keys| else n
    ensures keys == keys[..|keys| - |r|] + r
  {
    if |keys| <= n then keys else keys[|keys| - n..]
  }

  /** Whether a buffer fires the easter egg. */
  predicate Activates(buffer: seq<string>) {
    Join(buffer) == Join(Pattern)
  }

  /** Trimming before or after appending a key gives the same window, so the
      buffer is always the last `n` keys of everything pressed. */
  lemma SlidingWindow(pressed: seq<string>, key: string, n: nat)
    requires n > 0
    ensures LastKeys(LastKeys(pressed, n) + [key], n) == LastKeys(pressed + [key], n)
  {
    var w := LastKeys(pressed, n);
    if |pressed| > n {
      var s := pressed + [key];
      assert (w + [key])[1..] == s[|s| - n..];
    }
  }

  /** No key name of the pattern is a prefix of another one. */
  lemma PatternKeysPrefixFree(x: string, y: string)
    requires x in PatternKeys && y in PatternKeys
    requires x <= y
    ensures x == y
  {
    assert x[0] == y[0];
    if |x| > 5 {
      assert x[5] == y[5];
    }
    if |x| == |y| {
      assert x == y[..|x|] == y;
    }
  }

  /** Over the pattern's key names, joining loses no information: the names
      form a prefix-free code, so the joined string has one decomposition. */
  lemma {:induction false} JoinInjectiveOnPatternKeys(xs: seq<string>, ys: seq<string>)
    requires forall k :: 0 <= k < |xs| ==> xs[k] in PatternKeys
    requires forall k :: 0 <= k < |ys| ==> ys[k] in PatternKeys
    requires Join(xs) == Join(ys)
    ensures xs == ys
    decreases |xs|
  {
    if xs != [] && ys != [] {
      var x, y := xs[0], ys[0];
      var s := Join(xs);
      assert s == x + Join(xs[1..]) && s == y + Join(ys[1..]);
      assert x <= s && y <= s;
      if |x| <= |y| {
        assert x <= y;
        PatternKeysPrefixFree(x, y);
      } else {
        assert y <= x;
        PatternKeysPrefixFree(y, x);
      }
      assert Join(xs[1..]) == s[|x|..] == Join(ys[1..]);
      JoinInjectiveOnPatternKeys(xs[1..], ys[1..]);
      assert xs == [x] + xs[1..] && ys == [y] + ys[1..];
    }
  }

  /** A buffer made only of the pattern's key names fires the easter egg iff
      it is the pattern, entry by entry. */
  lemma ActivatesIffPatternOnPatternKeys(buffer: seq<string>)
    requires forall k :: 0 <= k < |buffer| ==> buffer[k] in PatternKeys
    ensures Activates(buffer) <==> buffer == Pattern
  {
    if Activates(buffer) {
      JoinInjectiveOnPatternKeys(buffer, Pattern);
    }
  }

  /** Once the last ten keys pressed are the pattern, the buffer fires. */
  lemma PatternTriggers(pressed: seq<string>)
    requires |pressed| >= |Pattern| && pressed[|pressed| - |Pattern|..] == Pattern
    ensures Activates(LastKeys(pressed, |Pattern|))
  {
  }

  /** The joined comparison is weaker than entry-by-entry equality: a buffer
      holding one entry that spells the whole pattern fires as well. */
  lemma JoinedComparisonAdmitsOtherBuffers()
    ensures Activates([Join(Pattern)]) && [Join(Pattern)] != Pattern
  {
    var one := [Join(Pattern)];
    assert Join(one) == one[0] + Join(one[1..]);
    assert one[1..] == [];
  }

  /** The document-level `keydown` listener and its buffer. */
  class Listener {
    var buffer: seq<string>
    /** Every key pressed so far, oldest first. */
    ghost var pressed: seq<string>

    ghost predicate Valid()
      reads this
    {
      buffer == LastKeys(pressed, |Pattern|)
    }

    constructor ()
      ensures Valid() && buffer == [] && pressed == []
    {
      buffer := [];
      pressed := [];
    }

    /** The `keydown` listener, given the event's key name; the result says
        whether the easter egg fired. */
    method OnKeyDown(key: string) returns (activated: bool)
      requires Valid()
      modifies this
      ensures Valid() && pressed == old(pressed) + [key]
      ensures buffer == LastKeys(old(buffer) + [key], |Pattern|)
      ensures |buffer| <= 10
      ensures activated <==> Join(buffer) == Join(Pattern)
    {
      SlidingWindow(pressed, key, |Pattern|);
      buffer := buffer + [key];
      buffer := LastKeys(buffer, |Pattern|);
      pressed := pressed + [key];
      activated := Join(buffer) == Join(Pattern);
    }
  }
}
