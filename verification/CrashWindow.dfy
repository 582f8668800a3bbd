/** The crash counter of a critical service: a window that is anchored at its first exit. */
module CrashWindow {
  const THRESHOLD := 4
  const WINDOW := 4 * 60

  /** time_crashed and nr_crashed; both are zero to begin with, so the first window starts at the
      origin of the clock. */
  datatype Counter = Counter(anchor: int, count: nat)

  function Count(c: Counter, now: int): Counter {
    if c.anchor + WINDOW >= now then c.(count := c.count + 1) else Counter(now, 1)
  }

  /** The counter after these exits, in the order of time. */
  function Track(exits: seq<int>): Counter {
    if exits == [] then Counter(0, 0) else Count(Track(exits[..|exits| - 1]), exits[|exits| - 1])
  }

  /** Some exit takes the counter over the threshold. */
  predicate Reboots(exits: seq<int>) {
    exits != [] && (Reboots(exits[..|exits| - 1]) || Track(exits).count > THRESHOLD)
  }

  predicate Sorted(exits: seq<int>) {
    && (forall i :: 0 <= i < |exits| ==> 0 <= exits[i])
    && (forall i, j :: 0 <= i < j < |exits| ==> exits[i] <= exits[j])
  }

  /** The exits from the anchor on. */
  function Since(exits: seq<int>, anchor: int): (n: nat)
    ensures n <= |exits|
  {
    if exits == [] then 0
    else Since(exits[..|exits| - 1], anchor) + (if exits[|exits| - 1] >= anchor then 1 else 0)
  }

  lemma {:induction false} SinceLater(exits: seq<int>, anchor: int)
    requires forall i :: 0 <= i < |exits| ==> exits[i] < anchor
    ensures Since(exits, anchor) == 0
  {
    if exits != [] {
      SinceLater(exits[..|exits| - 1], anchor);
    }
  }

  /** The counter is the number of exits from the anchor on, and these are the last ones and lie
      within one window. */
  lemma {:induction false} TrackMeaning(exits: seq<int>)
    requires Sorted(exits)
    ensures var c := Track(exits);
            && c.count == Since(exits, c.anchor) <= |exits|
            && (exits != [] ==> c.anchor <= exits[|exits| - 1] <= c.anchor + 240 && 1 <= c.count)
            && (forall i :: 0 <= i < |exits| ==> (exits[i] >= c.anchor <==> i >= |exits| - c.count))
  {
    if exits != [] {
      var n := |exits| - 1;
      var before, now := exits[..n], exits[n];
      TrackMeaning(before);
      var c, d := Track(before), Track(exits);
      if c.anchor + WINDOW >= now {
        assert d == c.(count := c.count + 1);
        assert now >= c.anchor by {
          if n > 0 {
            assert before[n - 1] == exits[n - 1];
          }
        }
      } else {
        forall i | 0 <= i < n
          ensures exits[i] < now
        {
          assert exits[i] <= exits[n - 1] == before[n - 1];
        }
        SinceLater(before, now);
      }
      forall i | 0 <= i < |exits|
        ensures exits[i] >= d.anchor <==> i >= |exits| - d.count
      {
        if i < n {
          assert before[i] == exits[i];
        }
      }
    }
  }

  /** A reboot is asked for only when the last five exits lie within four minutes. */
  lemma {:induction false} RebootMeaning(exits: seq<int>)
    requires Sorted(exits) && Track(exits).count > 4
    ensures |exits| >= 5 && exits[|exits| - 1] - exits[|exits| - 5] <= 240
  {
    TrackMeaning(exits);
    assert exits[|exits| - 5] >= Track(exits).anchor;
  }

  /** The exits cut into windows from the front: each window takes all exits up to four minutes
      behind its anchor, and the next exit is the anchor of the next window. The result is the size
      of the largest window. */
  function Largest(exits: seq<int>, anchor: int, size: nat): (n: nat)
    ensures n >= size
    decreases |exits|
  {
    if exits == [] then size
    else if exits[0] <= anchor + WINDOW then Largest(exits[1..], anchor, size + 1)
    else
      var rest := Largest(exits[1..], exits[0], 1);
      if rest > size then rest else size
  }

  lemma {:induction false} LargestLast(exits: seq<int>, anchor: int, size: nat, now: int)
    ensures var c := TrackFrom(Counter(anchor, size), exits);
            var l := Largest(exits, anchor, size);
            var m := Count(c, now).count;
            Largest(exits + [now], anchor, size) == if m > l then m else l
    decreases |exits|
  {
    if exits == [] {
      assert (exits + [now])[1..] == [];
    } else {
      assert (exits + [now])[1..] == exits[1..] + [now] && (exits + [now])[0] == exits[0];
      if exits[0] <= anchor + WINDOW {
        LargestLast(exits[1..], anchor, size + 1, now);
      } else {
        LargestLast(exits[1..], exits[0], 1, now);
      }
    }
  }

  /** Track, read from the front. */
  function TrackFrom(c: Counter, exits: seq<int>): Counter
    decreases |exits|
  {
    if exits == [] then c else TrackFrom(Count(c, exits[0]), exits[1..])
  }

  lemma {:induction false} TrackFromLast(c: Counter, exits: seq<int>, now: int)
    ensures TrackFrom(c, exits + [now]) == Count(TrackFrom(c, exits), now)
    decreases |exits|
  {
    if exits == [] {
      assert (exits + [now])[1..] == [];
    } else {
      assert (exits + [now])[1..] == exits[1..] + [now] && (exits + [now])[0] == exits[0];
      TrackFromLast(Count(c, exits[0]), exits[1..], now);
    }
  }

  lemma {:induction false} TrackIsTrackFrom(exits: seq<int>)
    ensures Track(exits) == TrackFrom(Counter(0, 0), exits)
  {
    if exits != [] {
      var before, now := exits[..|exits| - 1], exits[|exits| - 1];
      TrackIsTrackFrom(before);
      TrackFromLast(Counter(0, 0), before, now);
      assert before + [now] == exits;
    }
  }

  /** Exactly when a reboot is asked for: when five exits fall into one of the windows. */
  lemma {:induction false} RebootsExactly(exits: seq<int>)
    ensures Reboots(exits) <==> Largest(exits, 0, 0) >= 5
  {
    if exits != [] {
      var before, now := exits[..|exits| - 1], exits[|exits| - 1];
      RebootsExactly(before);
      TrackIsTrackFrom(before);
      LargestLast(before, 0, 0, now);
      assert before + [now] == exits;
    }
  }

  lemma {:induction false} WindowTakes(exits: seq<int>, anchor: int, size: nat, n: nat)
    requires n <= |exits| && forall i :: 0 <= i < n ==> exits[i] <= anchor + WINDOW
    ensures Largest(exits, anchor, size) == Largest(exits[n..], anchor, size + n)
    decreases n
  {
    if n > 0 {
      WindowTakes(exits[1..], anchor, size + 1, n - 1);
      assert exits[1..][n - 1..] == exits[n..];
    } else {
      assert exits[0..] == exits;
    }
  }

  /** One more exit, when none before it has asked for a reboot. */
  lemma {:induction false} OneMore(exits: seq<int>, now: int)
    requires !Reboots(exits)
    ensures Track(exits + [now]) == Count(Track(exits), now)
    ensures Reboots(exits + [now]) <==> Track(exits + [now]).count > THRESHOLD
  {
    var more := exits + [now];
    assert more[..|more| - 1] == exits && more[|more| - 1] == now;
  }

  // ---------- how this differs from five exits in any four minutes ----------

  /** `a` ends one window and `b` starts the next. */
  lemma {:induction false} WindowEnds(a: seq<int>, b: seq<int>, anchor: int, size: nat)
    requires b != [] && b[0] > anchor + WINDOW && forall i :: 0 <= i < |a| ==> a[i] <= anchor + WINDOW
    ensures var n := Largest(b[1..], b[0], 1);
            Largest(a + b, anchor, size) == if n > size + |a| then n else size + |a|
  {
    WindowTakes(a + b, anchor, size, |a|);
    assert (a + b)[|a|..] == b;
  }

  lemma {:induction false} WindowLast(a: seq<int>, anchor: int, size: nat)
    requires forall i :: 0 <= i < |a| ==> a[i] <= anchor + WINDOW
    ensures Largest(a, anchor, size) == size + |a|
  {
    WindowTakes(a, anchor, size, |a|);
    assert a[|a|..] == [];
  }

  lemma LargestFirst(first: int, rest: seq<int>)
    requires first > WINDOW
    ensures Largest([first] + rest, 0, 0) == Largest(rest, first, 1)
  {
    assert ([first] + rest)[1..] == rest;
  }

  /** Two windows, the first not anchored at the origin, neither of which fills. */
  lemma {:induction false} TwoWindows(first: int, a: seq<int>, b: seq<int>)
    requires first > WINDOW && 0 < |b| <= THRESHOLD && |a| < THRESHOLD
    requires forall i :: 0 <= i < |a| ==> a[i] <= first + WINDOW
    requires b[0] > first + WINDOW && forall i :: 0 <= i < |b| ==> b[i] <= b[0] + WINDOW
    ensures !Reboots([first] + (a + b))
  {
    RebootsExactly([first] + (a + b));
    LargestFirst(first, a + b);
    WindowEnds(a, b, first, 1);
    WindowLast(b[1..], b[0], 1);
  }

  /** Five exits within twenty seconds, as far apart as restarts are, that fall into two windows ask
      for no reboot. */
  lemma FiveMayBeMissed()
    ensures var exits := [1000] + ([1231, 1236] + [1241, 1246, 1251]);
            exits[5] - exits[1] == 20 && !Reboots(exits)
  {
    TwoWindows(1000, [1231, 1236], [1241, 1246, 1251]);
  }

  /** Eight exits within four minutes may still ask for none, five seconds apart. */
  lemma EightMayBeMissed()
    ensures var exits := [225, 230, 235, 240] + [245, 250, 255, 260];
            exits[7] - exits[0] <= 240 && !Reboots(exits)
  {
    var a, b := [225, 230, 235, 240], [245, 250, 255, 260];
    RebootsExactly(a + b);
    WindowEnds(a, b, 0, 0);
    WindowLast(b[1..], 245, 1);
  }

  /** From any state of the counter, nine exits within four minutes fill a window. */
  lemma {:induction false} NineFill(exits: seq<int>, anchor: int, size: nat, n: nat)
    requires Sorted(exits) && 5 <= n && size + n >= 9 && n <= |exits|
    requires exits[n - 1] - exits[0] <= WINDOW
    ensures Largest(exits, anchor, size) > THRESHOLD
    decreases |exits|
  {
    if exits[0] <= anchor + WINDOW {
      if size < 4 {
        assert exits[1] <= exits[n - 1] && exits[0] <= exits[1];
        if n == 5 {
          assert false;
        }
        NineFill(exits[1..], anchor, size + 1, n - 1);
      }
    } else {
      forall i | 0 <= i < 4
        ensures exits[1..][i] <= exits[0] + WINDOW
      {
        assert exits[i + 1] <= exits[n - 1];
      }
      WindowTakes(exits[1..], exits[0], 1, 4);
    }
  }

  lemma {:induction false} NineLater(exits: seq<int>, anchor: int, size: nat, k: nat)
    requires Sorted(exits) && k + 9 <= |exits| && exits[k + 8] - exits[k] <= WINDOW
    ensures Largest(exits, anchor, size) > THRESHOLD
    decreases |exits|
  {
    if k == 0 {
      NineFill(exits, anchor, size, 9);
    } else if exits[0] <= anchor + WINDOW {
      NineLater(exits[1..], anchor, size + 1, k - 1);
    } else {
      NineLater(exits[1..], exits[0], 1, k - 1);
    }
  }

  /** The first five exits of a service ask for a reboot exactly when the fifth comes within the window
      of the first, to the last second, or within the one that is anchored at the origin. */
  lemma {:induction false} FiveExactly(a: int, b: int, c: int, d: int, e: int)
    requires 0 <= a <= b <= c <= d <= e
    ensures Reboots([a, b, c, d, e]) <==> e <= 240 || (a > 240 && e - a <= 240)
  {
    var exits, rest := [a, b, c, d, e], [b, c, d, e];
    RebootsExactly(exits);
    var anchor := if a <= 240 then 0 else a;
    assert exits[1..] == rest && rest[3] == e;
    assert Largest(exits, 0, 0) == Largest(rest, anchor, 1);
    if e <= anchor + 240 {
      WindowLast(rest, anchor, 1);
    } else {
      AtMostAll(rest, anchor, 1);
    }
  }

  lemma {:induction false} AtMostAll(exits: seq<int>, anchor: int, size: nat)
    ensures Largest(exits, anchor, size) <= size + |exits|
    ensures exits != [] && (exists i :: 0 <= i < |exits| && exits[i] > anchor + 240) && size > 0 ==>
              Largest(exits, anchor, size) < size + |exits|
    decreases |exits|
  {
    if exits != [] {
      if exits[0] <= anchor + WINDOW {
        AtMostAll(exits[1..], anchor, size + 1);
        if i :| 0 <= i < |exits| && exits[i] > anchor + 240 {
          assert exits[1..][i - 1] > anchor + 240;
        }
      } else {
        AtMostAll(exits[1..], exits[0], 1);
      }
    }
  }

  /** Nine exits within four minutes always ask for a reboot; by EightMayBeMissed no smaller number
      does. */
  lemma {:induction false} NineAlwaysReboot(exits: seq<int>, k: nat)
    requires Sorted(exits) && k + 9 <= |exits| && exits[k + 8] - exits[k] <= 240
    ensures Reboots(exits)
  {
    NineLater(exits, 0, 0, k);
    RebootsExactly(exits);
  }
}
