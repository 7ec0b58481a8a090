/** Keeping a command from running twice at once. */
module Deduplication {
  import opened Domain

  /** One key per resolved command and schedule. */
  function DedupKey(cmd: string, spec: string): string {
    cmd + "#" + spec
  }

  predicate EndsWith(s: string, tail: string) {
    |tail| <= |s| && s[|s| - |tail|..] == tail
  }

  lemma LongerSpecEndsWithShorter(c1: string, s1: string, c2: string, s2: string)
    requires DedupKey(c1, s1) == DedupKey(c2, s2) && |s1| >= |s2|
    ensures (c1 == c2 && s1 == s2) || EndsWith(s1, "#" + s2)
  {
    var key := DedupKey(c1, s1);
    assert s1 == key[|key| - |s1|..];
    assert "#" + s2 == key[|key| - |s2| - 1..];
    if |s1| == |s2| {
      assert s2 == key[|key| - |s2|..];
      assert c1 == key[..|c1|] && c2 == key[..|c2|];
    } else {
      assert s1[|s1| - |s2| - 1..] == key[|key| - |s2| - 1..];
    }
  }

  lemma EndingCollides(s1: string, s2: string) returns (c1: string, c2: string)
    requires EndsWith(s1, "#" + s2)
    ensures DedupKey(c1, s1) == DedupKey(c2, s2) && s1 != s2
  {
    var x := s1[..|s1| - |s2| - 1];
    assert s1 == x + ("#" + s2);
    c1, c2 := "", "#" + x;
    assert DedupKey(c1, s1) == "#" + x + "#" + s2;
  }

  /** Exactly when two schedules can share a key for different calls: when one ends with '#' and the other. */
  lemma KeysCollideIff(s1: string, s2: string)
    ensures (exists c1, c2 :: DedupKey(c1, s1) == DedupKey(c2, s2) && (c1 != c2 || s1 != s2)) <==>
            EndsWith(s1, "#" + s2) || EndsWith(s2, "#" + s1)
  {
    if c1, c2 :| DedupKey(c1, s1) == DedupKey(c2, s2) && (c1 != c2 || s1 != s2) {
      if |s1| >= |s2| {
        LongerSpecEndsWithShorter(c1, s1, c2, s2);
      } else {
        LongerSpecEndsWithShorter(c2, s2, c1, s1);
      }
    }
    if EndsWith(s1, "#" + s2) {
      var c1, c2 := EndingCollides(s1, s2);
    }
    if EndsWith(s2, "#" + s1) {
      var c2, c1 := EndingCollides(s2, s1);
      assert DedupKey(c1, s1) == DedupKey(c2, s2);
    }
  }

  /** So for schedules without '#', equal keys mean the same resolved command and the same schedule. */
  lemma KeyDeterminesCall(c1: string, s1: string, c2: string, s2: string)
    requires '#' !in s1 && '#' !in s2 && DedupKey(c1, s1) == DedupKey(c2, s2)
    ensures c1 == c2 && s1 == s2
  {
    HashInside(s1, s2);
    HashInside(s2, s1);
    if |s1| >= |s2| {
      LongerSpecEndsWithShorter(c1, s1, c2, s2);
    } else {
      LongerSpecEndsWithShorter(c2, s2, c1, s1);
    }
  }

  lemma HashInside(s: string, tail: string)
    ensures EndsWith(s, "#" + tail) ==> '#' in s
  {
    if EndsWith(s, "#" + tail) {
      assert s[|s| - |tail| - 1] == ("#" + tail)[0];
    }
  }

  class DeDup {
    var active: map<string, Time>
    const enabled: bool

    constructor (enabled: bool)
      ensures this.enabled == enabled && active == map[]
    {
      this.enabled, active := enabled, map[];
    }

    /** Registers the key; false, and no change, if it is registered already. A disabled DeDup registers nothing. */
    method Add(key: string, now: Time) returns (added: bool)
      modifies this`active
      ensures added <==> !enabled || key !in old(active)
      ensures active == if enabled && added then old(active)[key := now] else old(active)
    {
      if !enabled { return true; }
      if key in active { return false; }
      active := active[key := now];
      return true;
    }

    method Remove(key: string)
      modifies this`active
      ensures active == if enabled then old(active) - {key} else old(active)
    {
      if !enabled { return; }
      active := active - {key};
    }
  }
}
