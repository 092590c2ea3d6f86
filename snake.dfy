/**
  The snake: its head, heading, the map from each occupied cell to the number
  of ticks it stays occupied, and its length. One tick (`Snake.Move`) takes
  the most recent pending key press, applies the perpendicular-turn rule,
  steps the head, and either reports game over or counts every segment down
  and writes the new head with the full length.
 */
module Snakes {
  import opened Optional
  import opened Grid

  /** The two outcomes of a tick; `GameOver` stands for the raised exception. */
  datatype MoveOutcome = Moved | GameOver

  /** The last of the key presses queued since the previous tick, if any. */
  function LastRequested(pending: seq<Direction>): Option<Direction> {
    if |pending| == 0 then None else Some(pending[|pending| - 1])
  }

  /**
    The heading after a tick: a request is taken only when it is perpendicular
    to the current heading; a reversal or a same-axis request is ignored.
   */
  function Turn(current: Direction, request: Option<Direction>): Direction {
    if request.Some? && Perpendicular(current, request.value) then request.value else current
  }

  /** Only a perpendicular request turns the snake; in particular it never reverses. */
  lemma NoReversal(d: Direction)
    ensures Turn(d, Some(Opposite(d))) == d && Turn(d, Some(d)) == d
    ensures forall r :: Turn(d, Some(r)) != d <==> Perpendicular(d, r)
  {
  }

  /**
    Heading Right, the queue [Down, Left] keeps the heading (only Left counts,
    and it is a reversal), while the queue [Up] turns the snake Up.
   */
  lemma LatestRequestOnly()
    ensures Turn(Right, LastRequested([Down, Left])) == Right
    ensures Turn(Right, LastRequested([Up])) == Up
    ensures Turn(Right, LastRequested([])) == Right
  {
  }

  /** The head would leave the board or run into the body. */
  predicate Collides(next: Coordinate, fields: map<Coordinate, int>, width: int, height: int) {
    !InBounds(next, width, height) || next in fields
  }

  /**
    One countdown of every segment: each value drops by one and the segments
    that reach exactly zero are removed.
   */
  function Countdown(fields: map<Coordinate, int>): map<Coordinate, int> {
    map c | c in fields && fields[c] - 1 != 0 :: fields[c] - 1
  }

  /** No two segments share a countdown value. */
  ghost predicate Distinct(fields: map<Coordinate, int>) {
    forall a, b :: a in fields && b in fields && a != b ==> fields[a] != fields[b]
  }

  /**
    The snake's invariant: the head is a segment, every segment is on the
    board, every countdown lies in 1..length and no two are equal.
   */
  ghost predicate Body(head: Coordinate, fields: map<Coordinate, int>, length: int, width: int, height: int) {
    && head in fields
    && (forall c :: c in fields ==> InBounds(c, width, height) && 1 <= fields[c] <= length)
    && Distinct(fields)
  }

  /** Distinct countdowns in 1..n leave room for at most n segments. */
  lemma {:induction false} SegmentCount(fields: map<Coordinate, int>, n: nat)
    requires forall c :: c in fields ==> 1 <= fields[c] <= n
    requires Distinct(fields)
    ensures |fields| <= n
  {
    if n == 0 {
      assert fields.Keys == {};
    } else if t :| t in fields && fields[t] == n {
      // At most one segment holds n; the others hold 1..n-1.
      var rest := fields - {t};
      RemoveOneSize(fields, t);
      forall c | c in rest
        ensures 1 <= rest[c] <= n - 1
      {
        assert fields[c] != fields[t];
      }
      SegmentCount(rest, n - 1);
    } else {
      SegmentCount(fields, n - 1);
    }
  }

  lemma RemoveOneSize(fields: map<Coordinate, int>, t: Coordinate)
    requires t in fields
    ensures |fields - {t}| == |fields| - 1
  {
    assert (fields - {t}).Keys == fields.Keys - {t};
  }

  /**
    A tick that does not collide keeps the invariant, writes the head with the
    full length, and leaves at most `length` segments.
   */
  lemma TickKeepsBody(head: Coordinate, fields: map<Coordinate, int>, length: int, width: int, height: int, next: Coordinate)
    requires Body(head, fields, length, width, height)
    requires !Collides(next, fields, width, height)
    ensures Body(next, Countdown(fields)[next := length], length, width, height)
    ensures Countdown(fields)[next := length][next] == length
    ensures |Countdown(fields)[next := length]| <= length
  {
    var after := Countdown(fields)[next := length];
    forall a, b | a in after && b in after && a != b
      ensures after[a] != after[b]
    {
      if a != next && b != next {
        assert fields[a] != fields[b];
      }
    }
    SegmentCount(after, length);
  }

  /** The countdown applied `n` times, as over `n` ticks. */
  function CountdownTimes(fields: map<Coordinate, int>, n: nat): map<Coordinate, int> {
    if n == 0 then fields else Countdown(CountdownTimes(fields, n - 1))
  }

  /**
    A segment written with value v is present for exactly v - 1 further
    countdowns, holding v - n after n of them, and is gone at the v-th.
   */
  lemma {:induction false} SegmentLifetime(fields: map<Coordinate, int>, c: Coordinate, n: nat)
    requires c in fields && fields[c] >= 1
    ensures c in CountdownTimes(fields, n) <==> n < fields[c]
    ensures c in CountdownTimes(fields, n) ==> CountdownTimes(fields, n)[c] == fields[c] - n
  {
    if n > 0 {
      SegmentLifetime(fields, c, n - 1);
    }
  }

  /**
    The fields after a run of ticks that do not collide: each tick counts
    every segment down and writes its head, in order, with countdown `length`,
    as `Snake.Move` does.
   */
  function AfterTicks(fields: map<Coordinate, int>, heads: seq<Coordinate>, length: int): map<Coordinate, int> {
    if |heads| == 0 then fields
    else Countdown(AfterTicks(fields, heads[..|heads| - 1], length))[heads[|heads| - 1] := length]
  }

  /**
    A segment that no later head overwrites leaves exactly when its countdown
    runs out: with value v it is present after n ticks exactly when n < v,
    then holds v - n, just as under the bare countdown.
   */
  lemma {:induction false} TailLeaves(fields: map<Coordinate, int>, c: Coordinate, heads: seq<Coordinate>, length: int)
    requires c in fields && fields[c] >= 1 && c !in heads
    ensures c in AfterTicks(fields, heads, length) <==> |heads| < fields[c]
    ensures c in AfterTicks(fields, heads, length) ==> AfterTicks(fields, heads, length)[c] == fields[c] - |heads|
    ensures c in AfterTicks(fields, heads, length) <==> c in CountdownTimes(fields, |heads|)
  {
    SegmentLifetime(fields, c, |heads|);
    if |heads| > 0 {
      var earlier := heads[..|heads| - 1];
      assert c !in earlier;
      TailLeaves(fields, c, earlier, length);
    }
  }

  /** Drains the pending key presses, keeping only the most recent one. */
  method DrainLatest(pending: seq<Direction>) returns (latest: Option<Direction>)
    ensures latest.None? <==> |pending| == 0
    ensures latest.Some? ==> latest.value == pending[|pending| - 1]
  {
    latest := None;
    var i := 0;
    while i < |pending|
      invariant 0 <= i <= |pending|
      invariant latest.None? <==> i == 0
      invariant latest.Some? ==> latest.value == pending[i - 1]
    {
      latest := Some(pending[i]);
      i := i + 1;
    }
  }

  class Snake {
    var head: Coordinate
    var direction: Direction
    var fields: map<Coordinate, int>
    var length: int

    constructor (head: Coordinate, direction: Direction, fields: map<Coordinate, int>, length: int)
      ensures this.head == head && this.direction == direction
      ensures this.fields == fields && this.length == length
    {
      this.head := head;
      this.direction := direction;
      this.fields := fields;
      this.length := length;
    }

    ghost predicate Valid(width: int, height: int)
      reads this
    {
      Body(head, fields, length, width, height)
    }

    /**
      One tick on a width x height board, with `pending` the key presses
      queued since the previous tick. The heading is updated first, so on
      game over it may already have turned while head and fields stay put.
     */
    method Move(width: int, height: int, pending: seq<Direction>) returns (outcome: MoveOutcome)
      modifies this
      ensures length == old(length)
      ensures direction == Turn(old(direction), LastRequested(pending))
      ensures outcome == GameOver <==> Collides(Advance(old(head), direction), old(fields), width, height)
      ensures outcome == GameOver ==> head == old(head) && fields == old(fields)
      ensures outcome == Moved ==> head == Advance(old(head), direction)
      ensures outcome == Moved ==> fields == Countdown(old(fields))[head := length]
      ensures outcome == Moved && old(Valid(width, height)) ==>
                Valid(width, height) && fields[head] == length && |fields| <= length
    {
      var latest := DrainLatest(pending);
      if latest.Some? {
        var update := latest.value;
        if IsHorizontal(direction) && IsVertical(update) {
          direction := update;
        }
        if IsVertical(direction) && IsHorizontal(update) {
          direction := update;
        }
      }

      var moved := Advance(head, direction);
      if !(0 <= moved.x < width) || !(0 <= moved.y < height) || moved in fields {
        return GameOver;
      }

      ghost var before := fields;
      head := moved;
      CountDown();
      fields := fields[head := length];
      outcome := Moved;
      if old(Valid(width, height)) {
        TickKeepsBody(old(head), before, length, width, height, head);
      }
    }

    /**
      Counts every segment down by one in place, then deletes the segments
      that reached zero.
     */
    method CountDown()
      modifies this`fields
      ensures fields == Countdown(old(fields))
    {
      var toRemove: seq<Coordinate> := [];
      var unvisited := fields.Keys;
      while unvisited != {}
        modifies this`fields
        invariant unvisited <= old(fields).Keys && fields.Keys == old(fields).Keys
        invariant forall c :: c in fields ==> fields[c] == if c in unvisited then old(fields)[c] else old(fields)[c] - 1
        invariant forall c :: c in toRemove <==> c in old(fields) && c !in unvisited && old(fields)[c] == 1
        decreases unvisited
      {
        var c :| c in unvisited;
        fields := fields[c := fields[c] - 1];
        if fields[c] == 0 {
          toRemove := toRemove + [c];
        }
        unvisited := unvisited - {c};
      }

      for i := 0 to |toRemove|
        modifies this`fields
        invariant forall c :: c in fields <==> c in old(fields) && c !in toRemove[..i]
        invariant forall c :: c in fields ==> fields[c] == old(fields)[c] - 1
      {
        fields := fields - {toRemove[i]};
      }
      assert fields == Countdown(old(fields)) by {
        assert toRemove[..|toRemove|] == toRemove;
      }
    }
  }
}
