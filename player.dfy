/**
 * Players and attack recording (main.c:130-141, 162-168, 177-192). A player
 * owns a board and a fixed log of attack slots; an attack is written into
 * the first empty slot of the attacker's log. There is no deduplication, no
 * damage counting and no sinking: ships are read and never changed.
 */
module Players {
  import opened Options
  import opened Geometry
  import opened Boards

  /** Number of attack slots in a player's log (MAX_ATTACKS). */
  const MaxAttacks: int := BoardSize * BoardSize

  datatype AttackResult = Miss | Hit

  /** An attacked point and its outcome (attack_create). */
  datatype Attack = Attack(location: Point, result: AttackResult)

  /** The lowest empty slot at or after `from`, or None when every such slot is filled. */
  function FirstEmptyFrom<T>(log: seq<Option<T>>, from: nat): (r: Option<nat>)
    requires from <= |log|
    ensures r.Some? ==>
      from <= r.value < |log| && log[r.value].None? && forall k | from <= k < r.value :: log[k].Some?
    ensures r.None? ==> forall k | from <= k < |log| :: log[k].Some?
    decreases |log| - from
  {
    if from == |log| then None
    else if log[from].None? then Some(from)
    else FirstEmptyFrom(log, from + 1)
  }

  /** The log after recording `entry`: written into the first empty slot, or unchanged when no slot is empty. */
  function Record<T>(log: seq<Option<T>>, entry: T): (r: seq<Option<T>>)
  {
    match FirstEmptyFrom(log, 0)
    case None => log
    case Some(i) => log[i := Some(entry)]
  }

  /** Filled slots never follow an empty one. */
  predicate FilledPrefix<T>(log: seq<Option<T>>) {
    forall j, k | 0 <= j < k < |log| && log[k].Some? :: log[j].Some?
  }

  /** The recorded entries, in slot order. */
  function Entries<T>(log: seq<Option<T>>): seq<T> {
    if log == [] then []
    else
      var last := log[|log| - 1];
      Entries(log[..|log| - 1]) + (if last.Some? then [last.value] else [])
  }

  /** Recording writes the lowest empty slot and leaves every other slot as it was. */
  lemma {:induction false} RecordWritesFirstEmpty<T>(log: seq<Option<T>>, entry: T, i: nat)
    requires i < |log| && log[i].None?
    requires forall k | 0 <= k < i :: log[k].Some?
    ensures |Record(log, entry)| == |log|
    ensures Record(log, entry)[i] == Some(entry)
    ensures forall k | 0 <= k < |log| && k != i :: Record(log, entry)[k] == log[k]
  {
    var r := FirstEmptyFrom(log, 0);
    assert r.Some?;
    assert r.value == i;
  }

  /** A full log is left unchanged. */
  lemma RecordFullLog<T>(log: seq<Option<T>>, entry: T)
    requires forall k | 0 <= k < |log| :: log[k].Some?
    ensures Record(log, entry) == log
  {
  }

  /** Empty slots after position `n` contribute no entries. */
  lemma {:induction false} EntriesDropEmptyTail<T>(log: seq<Option<T>>, n: nat)
    requires n <= |log|
    requires forall k | n <= k < |log| :: log[k].None?
    ensures Entries(log) == Entries(log[..n])
    decreases |log| - n
  {
    if n < |log| {
      var front := log[..|log| - 1];
      assert front[..n] == log[..n];
      EntriesDropEmptyTail(front, n);
    } else {
      assert log[..n] == log;
    }
  }

  /** A log of empty slots has no entries. */
  lemma {:induction false} EntriesOfEmptySlots<T>(s: seq<Option<T>>)
    requires forall k | 0 <= k < |s| :: s[k].None?
    ensures Entries(s) == []
  {
    EntriesDropEmptyTail(s, 0);
  }

  /** The number of entries never exceeds the number of slots. */
  lemma {:induction false} EntriesBounded<T>(s: seq<Option<T>>)
    ensures |Entries(s)| <= |s|
    decreases |s|
  {
    if s != [] {
      EntriesBounded(s[..|s| - 1]);
    }
  }

  /** A log with every slot filled has one entry per slot. */
  lemma {:induction false} AllFilledEntries<T>(log: seq<Option<T>>)
    requires forall k | 0 <= k < |log| :: log[k].Some?
    ensures |Entries(log)| == |log|
    decreases |log|
  {
    if log != [] {
      AllFilledEntries(log[..|log| - 1]);
    }
  }

  /** A log with an empty slot has fewer entries than slots. */
  lemma {:induction false} EmptySlotMeansFewEntries<T>(log: seq<Option<T>>, i: nat)
    requires i < |log| && log[i].None?
    ensures |Entries(log)| < |log|
    decreases |log|
  {
    var front := log[..|log| - 1];
    if i == |log| - 1 {
      EntriesBounded(front);
    } else {
      EmptySlotMeansFewEntries(front, i);
    }
  }

  /** A log with fewer entries than slots has an empty slot. */
  lemma {:induction false} HasRoomWhenFewEntries<T>(log: seq<Option<T>>)
    requires |Entries(log)| < |log|
    ensures exists k | 0 <= k < |log| :: log[k].None?
  {
    if forall k | 0 <= k < |log| :: log[k].Some? {
      AllFilledEntries(log);
    }
  }

  /** On a log whose filled slots form a prefix, recording keeps that shape. */
  lemma {:induction false} RecordKeepsPrefix<T>(log: seq<Option<T>>, entry: T)
    requires FilledPrefix(log)
    ensures FilledPrefix(Record(log, entry))
  {
    var first := FirstEmptyFrom(log, 0);
    if first.Some? {
      var i := first.value;
      var r := log[i := Some(entry)];
      forall j, k | 0 <= j < k < |r| && r[k].Some?
        ensures r[j].Some?
      {
        if k != i {
          assert log[k].Some?;
        }
      }
    }
  }

  /**
   * On a log whose filled slots form a prefix and which has room, recording
   * appends the entry to the end of the entries.
   */
  lemma {:induction false} RecordAppends<T>(log: seq<Option<T>>, entry: T)
    requires FilledPrefix(log)
    requires exists k | 0 <= k < |log| :: log[k].None?
    ensures Entries(Record(log, entry)) == Entries(log) + [entry]
  {
    var i := FirstEmptyFrom(log, 0).value;
    assert forall k | i < k < |log| :: log[k].None?;
    FillLastFilled(log, entry, i);
  }

  /** Filling slot `i` of a log that is empty from `i` on appends the entry. */
  lemma {:induction false} FillLastFilled<T>(log: seq<Option<T>>, entry: T, i: nat)
    requires i < |log|
    requires forall k | i <= k < |log| :: log[k].None?
    ensures Entries(log[i := Some(entry)]) == Entries(log) + [entry]
  {
    var r := log[i := Some(entry)];
    EntriesDropEmptyTail(log, i + 1);
    EntriesDropEmptyTail(r, i + 1);
    assert log[..i + 1] == log[..i] + [None];
    assert r[..i + 1] == log[..i] + [Some(entry)];
    EntriesSnoc(log[..i], None);
    EntriesSnoc(log[..i], Some(entry));
  }

  /** Appending one slot appends its entry, if any. */
  lemma {:induction false} EntriesSnoc<T>(s: seq<Option<T>>, v: Option<T>)
    ensures Entries(s + [v]) == Entries(s) + (if v.Some? then [v.value] else [])
  {
    assert (s + [v])[..|s|] == s;
  }

  /** Attacking the same point twice leaves two entries: repeated points are not merged. */
  lemma {:induction false} RepeatedAttackRecordedTwice(log: seq<Option<Attack>>, a: Attack)
    requires FilledPrefix(log)
    requires |Entries(log)| + 2 <= |log|
    ensures Entries(Record(Record(log, a), a)) == Entries(log) + [a, a]
  {
    HasRoomWhenFewEntries(log);
    RecordAppends(log, a);
    RecordKeepsPrefix(log, a);
    var once := Record(log, a);
    HasRoomWhenFewEntries(once);
    RecordAppends(once, a);
  }

  /** A player: a board of its own ships and a log of the attacks it has made. The name is not modelled. */
  class Player {
    var board: Board
    var attacks: array<Option<Attack>>

    /** The log has MAX_ATTACKS slots and its filled slots form a prefix. */
    ghost predicate Valid()
      reads this, board, attacks
    {
      board.Valid() && attacks.Length == MaxAttacks && FilledPrefix(attacks[..])
    }

    /** player_create: a fresh empty board and a log of empty slots. */
    constructor ()
      ensures Valid() && fresh(board) && fresh(board.ships) && fresh(attacks)
      ensures forall i | 0 <= i < board.ships.Length :: board.ships[i].None?
      ensures forall i | 0 <= i < attacks.Length :: attacks[i].None?
      ensures Entries(attacks[..]) == []
    {
      var slots := new Option<Attack>[MaxAttacks];
      var i := 0;
      while i < MaxAttacks
        invariant 0 <= i <= MaxAttacks
        invariant forall k | 0 <= k < i :: slots[k].None?
      {
        slots[i] := None;
        i := i + 1;
      }
      attacks := slots;
      board := new Board();
      EntriesOfEmptySlots(slots[..]);
    }

    /**
     * player_attackPlayer: the outcome is a hit exactly when the defender's
     * board has a ship at `point`; the attack goes into the first empty slot
     * of this player's log, which stays unchanged when it is full. The
     * defender's board and ships are only read.
     */
    method AttackPlayer(defense: Player, point: Point) returns (result: AttackResult)
      requires Valid() && defense.Valid() && AllPresent(defense.board.ships[..])
      modifies attacks
      ensures Valid()
      ensures result == Hit <==> ShipAtFrom(defense.board.ships[..], point, 0).Some?
      ensures attacks[..] == Record(old(attacks[..]), Attack(point, result))
      ensures |old(Entries(attacks[..]))| < MaxAttacks ==>
        Entries(attacks[..]) == old(Entries(attacks[..])) + [Attack(point, result)]
      ensures |old(Entries(attacks[..]))| == MaxAttacks ==> attacks[..] == old(attacks[..])
      ensures unchanged(defense.board.ships)
    {
      var ship := defense.board.ShipAt(point);
      result := if ship.Some? then Hit else Miss;
      var attack := Attack(point, result);
      EntriesBounded(attacks[..]);
      if |Entries(attacks[..])| < MaxAttacks {
        HasRoomWhenFewEntries(attacks[..]);
        RecordAppends(attacks[..], attack);
      }
      RecordKeepsPrefix(attacks[..], attack);
      for i := 0 to MaxAttacks
        invariant attacks[..] == old(attacks[..])
        invariant forall k | 0 <= k < i :: attacks[k].Some?
      {
        if attacks[i].None? {
          EmptySlotMeansFewEntries(attacks[..], i);
          RecordWritesFirstEmpty(attacks[..], attack, i);
          attacks[i] := Some(attack);
          return;
        }
      }
      RecordFullLog(attacks[..], attack);
      AllFilledEntries(attacks[..]);
    }
  }
}
